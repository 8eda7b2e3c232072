# Verified models of the BuildStream-to-Bazel pipeline

This project models the algorithmic parts of a converter that turns a BuildStream project into a
Bazel project, and proves what those parts promise.  Each module follows one source component:

- `Ordering`, `Sequences`, `Text`, `Decimals`, `Paths`, `RootedPaths`, `Options`: Go's string order,
  slices, the few functions of `strings` and `path/filepath` the tools use, decimal numerals, and
  optional values.
- `ElementNames`, `TopoOrder`, `ElementGraph`, `GraphLoading`: where dependency references lead and
  how files are named, discovering the `.bst` files a root needs, wiring their dependencies, and
  ordering them (Kahn's algorithm with a ready list sorted by name).
- `AtomSyntax`, `Expressions`, `ConditionTrees`, `ConditionParts`, `ConditionReading`,
  `ExpressionMeaning`, `ConditionShapes`, `ConditionSpellings`: parsing the conditions of `(?):`
  branches, what they mean, and which spellings are read as what they say.
- `Conditional`, `DispatchSpace`, `DispatchGroups`, `DispatchRender`, `ConfigOverrides`,
  `PipelineInstall`: folding branches at load time, applying the others per dispatch tuple,
  enumerating the tuples, grouping them by identical result, the `select()` arms and
  `config_setting` rules emitted for them, and all of this together, from an element's own branches
  to what its install rule runs.
- `Tracer`, `TraceLine`, `TraceReading`, `TraceRoundTrip`, `StraceLines`: the ptrace stop machine, the
  `execve` line printer, the parser of those lines, and what it reads from a printed line and from one
  of strace's own.
- `CompileIndex`, `MakeDatabase`, `PrintedDatabase`, `MakeVars`, `RuleRecovery`: the index from
  object files to compile events, the reader of `make -np` output and what it makes of a printed
  database, the make-variable expander, and the recovery of `cc_library` / `cc_binary` rules.
- `Rendezvous`, `StoreClients`: publishers and readers of traces over a content-addressed store and
  an action cache with eviction (Remote Execution API v2), as interleaved atomic steps and as
  sequential programs.
- `CEmbed`: embedding bytes in C source, read back by sections 5.1.1.2, 6.4.4.4 and 6.4.5 of
  ISO/IEC 9899:2018.
- `Finalize`, `StageB`: the two whole-tree transformers.

Code that changes state in the source is a class or a loop here (the element graph, the tracer loop,
the index maps, the make database, the store, project B, the cleanup plan); its methods are proved
against specification functions or predicates, and the promises are lemmas about those.

## What is taken as given

- Digests are injective and canonical encoding is a function (`Rendezvous.Sound`).
- A formatted BUILD file parses back to the same statements (`Finalize.Faithful`); the parser and
  the formatter are parameters, and so are the expansion of variables and their substitution into
  commands and environment (`PipelineInstall.Resolver`).
- Bazel does not load a BUILD file whose `select()` lists a key twice (`DispatchRender.Loads`).
- `+=` in make puts one space between two non-empty values, as GNU make does from version 4.3 on
  (`PrintedDatabase.Appended`).
- Files, stops and registers, link-library imports and the list of directories are inputs; paths are
  rooted POSIX paths.
- Bytes are characters; white space is ASCII.

## Where the code and its promises differ

- A make assignment is treated as conditional when `?=` occurs anywhere in the line, so `A = x?=y`
  is dropped once `A` has another value; and `A += y` replaces a value that make appends to.
  `PrintedDatabase.ConditionalExact` says exactly when the record departs from make, and
  `PrintedDatabase.FinalValue` when it does so in the end.
- Make-variable expansion equals full evaluation if and only if references nest at most 32 deep.
- The arguments of a printed line are read back exactly if no byte of them had to be written in
  hexadecimal, the line holds no resumption marker, and the printed cwd does not mention `execve(`.
  The parser starts at the first mention, so a line whose cwd mentions the call is refused; or, when
  the cwd ends in the mention, the path is taken for the arguments.
  `TraceRoundTrip.ParseUndoesEmit` is the exact condition for every line.  The cwd itself is read
  back if and only if it holds no control byte.
- A static branch declared after a dispatch branch that sets the same key loses, although it is
  declared later; and a branch on several variables never sets a variable at all, so its key keeps
  what the last dispatch branch, else the last static branch, else the base gives it.
  `Conditional.CompiledAgreesExactly` gives the exact condition.
- An element can refer by name only to the dispatch variables that some branch of it mentions: the
  others are not seeded (`PipelineInstall.TupleDecides`).
- `!=` on anything but `target_arch` never matches.  A condition whose operand holds one connective
  is refused; the exact shapes that are read, for every recognised operand, are
  `ExpressionMeaning.Recognised`.  A value list with a closing parenthesis inside a value is not read
  as a list at all, and its text can be read as something else
  (`ConditionSpellings.ParenthesisedOperandIsMisread`), but only when it holds exactly one of the
  connectives (`ConditionSpellings.MisreadOnlyByConnective`).
- When all resolvable tuples agree, the `select()` collapses to a plain command, which then also
  serves the tuples that could not be resolved: exactly then does such a tuple run anything.
- Two tuples whose values read alike after sanitising share a `select()` key and a rule name, so the
  BUILD file does not load.
- The group key does not tell no command from one empty command, and tells everything else apart
  (`DispatchGroups.KeyExact`).
- A cache entry whose root is evicted is a miss, but an entry whose root survives while a file of it
  is evicted is a hard error, not a miss; for traces and for config bundles alike.
- References that are not clean (`./b.bst`) pass discovery, but the loader reports them as missing;
  so does a reference whose first segment begins with two dots.  `ElementNames.ReferenceExact` gives
  the exact condition.
- An unreadable register set at the exit of a captured syscall leaves a stale capture.  The trace is
  wrong exactly when that capture is printed for a later syscall before it is overwritten or cleared.
- Cleaning drops a loaded name that is mentioned without being called
  (`Finalize.MentionedNamesAreDropped`); a comment in the source says both things.

## Model

| member | source | states |
|---|---|---|
| ElementGraph.TopoSort | cmd/write-a/main.go:1362-1403 | success gives a topological order that no other topological order precedes by name; an error means there is no such order, and on a closed graph that there is a cycle |
| ElementGraph.KahnRun | cmd/write-a/main.go:1374-1398 | the ready-list loop makes the greedy run and stops only when nothing is ready |
| ElementGraph.ReleaseDependents | cmd/write-a/main.go:1386-1396 | after one element is emitted, the counters and the ready list are those of the longer prefix |
| ElementGraph.InputOrderIrrelevant | cmd/write-a/main.go:1362-1403 | the order does not depend on how the elements were listed |
| TopoOrder.GreedyIsLeast | cmd/write-a/main.go:1379-1398 | taking the least ready name each time yields the lexicographically least topological order |
| TopoOrder.OrderImpliesComplete | cmd/write-a/main.go:1399-1402 | if any topological order exists, a stuck greedy run has reached every element |
| TopoOrder.LeastOrderUnique | cmd/write-a/main.go:1362-1403 | two least orders are equal |
| TopoOrder.CycleExcludesOrder | cmd/write-a/main.go:1399-1402 | a cycle rules out every topological order |
| TopoOrder.StuckImpliesCycle | cmd/write-a/main.go:1399-1402 | on a closed graph a run that stops short leaves a cycle |
| ElementGraph.ResolveDependencies | cmd/write-a/main.go:1259-1299 | passes exactly when every name an entry gives is known and no junction is used; then every element is wired to exactly those names, otherwise the error is a real fault of some element |
| ElementGraph.ResolveClass | cmd/write-a/main.go:1272-1295 | one dependency list: wired edges in order, or a justified error |
| ElementGraph.ReferencesInOrder | cmd/write-a/main.go:217-227 | every name of a list-form entry is a reference, all of them together and in their order; a single name is one where there is no list; nothing else is |
| ElementGraph.ReferencesAre | cmd/write-a/main.go:1259-1299 | the references of a file are the names its three lists give, its build-time references those of the first two |
| ElementGraph.WireMeaning | cmd/write-a/main.go:1259-1299 | the wired list holds every referenced element once and nothing else |
| ElementGraph.WireOrder | cmd/write-a/main.go:1259-1299 | the wired list is in first-occurrence order |
| ElementGraph.BuildDepsSubset | cmd/write-a/main.go:1259-1299 | build-time edges are a subset of all edges, both without repeats |
| ElementGraph.WiredIsClosed | cmd/write-a/main.go:1259-1299 | a wired graph is closed, so ordering fails only on cycles |
| GraphLoading.DiscoverBstGraph | cmd/write-a/main.go:1060-1126 | the worklist ends, loads each file once, and returns exactly the files reachable along the names in the entries, sorted; it fails exactly when a reachable file is faulty |
| GraphLoading.LoadElements | cmd/write-a/main.go:1156-1240 | one element per path with unique names, or the precise reason it cannot be made |
| GraphLoading.LoadGraph | cmd/write-a/main.go:1156-1248 | loading, wiring and ordering together: the least order; with clean references in a closed list a cycle is the only graph error, and nothing but clean references gets as far as the sort |
| GraphLoading.DiscoveredIsLoadable | cmd/write-a/main.go:1060-1126 | what discovery accepts is readable, free of junctions and closed; every reference names the file it leads to if and only if all references are clean |
| GraphLoading.DottedProjectIsDiscovered | cmd/write-a/main.go:1099-1121 | a concrete project that discovery accepts and whose reference `./b.bst` is the name of no file |
| ElementNames.ReferenceExact | cmd/write-a/main.go:1105-1115 | joining a reference to the element root (or the referring file's directory) and keying the file again gives the reference without its suffix if and only if the reference has plain segments, the first not beginning with two dots (without a project: one segment) |
| ElementNames.UncleanIsNoName | cmd/write-a/main.go:1180-1196 | any other reference is the name of no file, wherever that lies |
| RootedPaths.DotsUndo | cmd/write-a/main.go:1105-1115 | in a joined path two dots undo the segment before them |
| AtomSyntax.NothingFollows | cmd/write-a/conditional.go:136-148 | the anchored patterns: a recognised text stops being recognised once anything but white space follows |
| AtomSyntax.SpelledReadBack | cmd/write-a/conditional.go:136-148 | a documented spelling of ==, != or in is read back as that condition, with either quote, unless a value list is empty or a value closes its parenthesis; then it is not read at all |
| AtomSyntax.SpacedReadBack | cmd/write-a/conditional.go:136-148 | the same with any white space the patterns allow in every place they allow it: none is needed around == and !=, some is on both sides of in |
| Expressions.StripOuterParens | cmd/write-a/conditional.go:231-254 | the loop removes the outer parentheses exactly when the first one closes last |
| Expressions.ParseArchExpression | cmd/write-a/conditional.go:170-223 | the recursive parser computes its specification on every string, ending on string length |
| Expressions.ParseArchChain | cmd/write-a/conditional.go:261-286 | the accumulating loop over chain parts, with rejection of mixed variables |
| Expressions.MergeArches | cmd/write-a/conditional.go:314-326 | order-preserving union |
| Expressions.MergeAdds | cmd/write-a/conditional.go:314-326 | the second list adds its values one after the other, each only when it is not there yet |
| Expressions.IntersectArches | cmd/write-a/conditional.go:300-312 | order-preserving intersection |
| Expressions.IntersectIsFilter | cmd/write-a/conditional.go:300-312 | the first list, in its order, without what the second does not hold |
| Expressions.ParseMixedLHSAndChain | cmd/write-a/conditional.go:418-465 | one constraint per variable, together satisfied by exactly the tuples that satisfy every part; none when a part is not recognised |
| Expressions.BranchMatchesTuple | cmd/write-a/conditional.go:482-517 | all constraints hold, or the single variable has a listed value |
| Expressions.MakeBranch | cmd/write-a/conditional.go:378-405 | the built branch fires on exactly the tuples its condition text matches |
| ExpressionMeaning.MatchExact | cmd/write-a/conditional.go:170-517 | for every tree of recognised atoms (whatever their operands hold), parentheses and connectives: its text matches a tuple exactly when its shape is read as it stands and the tree is true by decidable atoms |
| ExpressionMeaning.NeverMisread | cmd/write-a/conditional.go:170-517 | a branch never fires on a tuple its condition is false of, however nested the condition is and whatever its operands hold |
| ExpressionMeaning.MatchIsMeaning | cmd/write-a/conditional.go:170-517 | on recognised shapes with decidable atoms, matching is evaluation |
| ExpressionMeaning.LowerMeaning | cmd/write-a/conditional.go:189-221 | the lowered values of an atom match exactly when it holds and is decidable from the closed architecture set |
| ConditionParts.PartParse | cmd/write-a/conditional.go:231-266 | a part between connectives is recognised exactly when it is a whole atom, bare or in one pair of parentheses that closes last; a beginning cut inside an atom never is |
| ConditionReading.TreesParse | cmd/write-a/conditional.go:170-286 | what the first parser returns for the text of any tree: the lowered atom, the folded chain, or nothing |
| ConditionReading.TreesMixed | cmd/write-a/conditional.go:418-465 | what the second parser returns for the text of any tree: its lowered atoms exactly for a chain of `and` under its own, laxer, parenthesis scan |
| ConditionShapes.PlainRecognised | cmd/write-a/conditional.go:170-286 | when no operand holds a connective or a stray parenthesis, exactly an atom, a flat chain of `or` over one variable and a flat chain of `and` are read |
| ConditionShapes.DocumentedLeaves | cmd/write-a/conditional.go:27-38 | a documented spelling is an atom of such trees exactly when no listed value closes the list, and a plain one exactly when moreover no operand holds a connective or an unpaired parenthesis |
| ConditionShapes.ConnectiveOperandIsRefused | cmd/write-a/conditional.go:170-187 | an atom by itself whose text holds one connective and not the other is matched by no tuple |
| ConditionSpellings.ParenthesisedOperandIsMisread | cmd/write-a/conditional.go:170-183 | a concrete spelling of a membership test that is no recognised atom but the text of two tests around `or`, and matches a value outside its list |
| ConditionSpellings.UnreadSpelling | cmd/write-a/conditional.go:170-187 | a documented spelling that is not read back and holds neither connective or both is matched by no tuple |
| ConditionSpellings.MisreadOnlyByConnective | cmd/write-a/conditional.go:170-187 | a documented spelling that matches a tuple its test is false of closes its own list and holds exactly one connective |
| Conditional.FoldStaticConditionals | cmd/write-a/conditional.go:704-739 | each key takes its value from the last matching static branch, else the base; the dispatch branches remain in order |
| Conditional.ApplyForTuple | cmd/write-a/conditional.go:905-947 | each key takes its value from the last branch that matches the tuple, else the given map |
| Conditional.FoldThenApply | cmd/write-a/conditional.go:704-762 | both stages: last matching dispatch branch, else last matching static branch, else base |
| Conditional.CompiledAgreesExactly | cmd/write-a/conditional.go:704-947 | for each key this equals applying all branches whose conditions hold, constraints included, in declaration order, if and only if no static branch overtakes the deciding dispatch branch and no deciding branch on several variables is dropped, that is, stood in for by a branch or a base with another value |
| Conditional.CompiledIgnoresMixed | cmd/write-a/conditional.go:905-947 | branches on several variables have no effect on what is compiled |
| Conditional.StaticDeclaredLastLoses | cmd/write-a/conditional.go:704-739 | a concrete block where the two readings differ |
| Conditional.MixedBranchIsDropped | cmd/write-a/conditional.go:905-947 | a branch on two variables, both with the asked value, sets nothing |
| Conditional.ResolveVarsForTuple | cmd/write-a/conditional.go:905-947 | both layers, the tuple's own values seeded above the project layer |
| DispatchSpace.DispatchSpaceFor | cmd/write-a/conditional.go:801-847 | one dimension per dispatchable variable some branch mentions, sorted, with its value list |
| DispatchSpace.CartesianTuples | cmd/write-a/conditional.go:854-875 | the nested loops enumerate the product |
| DispatchSpace.ProductMember | cmd/write-a/conditional.go:854-875 | exactly the total assignments are enumerated |
| DispatchSpace.ProductSize | cmd/write-a/conditional.go:854-875 | as many as the product of the value counts |
| DispatchSpace.ProductOrdered | cmd/write-a/conditional.go:854-875 | in lexicographic order, the first variable outermost |
| DispatchSpace.ProductDistinct | cmd/write-a/conditional.go:854-875 | pairwise distinct when values are duplicate-free |
| DispatchSpace.SpaceIsDistinct | cmd/write-a/conditional.go:829-846 | the computed space has distinct variables |
| DispatchSpace.SpaceCovers | cmd/write-a/conditional.go:801-875 | exactly those tuples are enumerated that give every architecture or option some branch mentions one of its own values, and nothing else |
| DispatchSpace.ValuesInOrder | cmd/write-a/conditional.go:829-846 | the values of each dimension and their order: the six architectures, True before False, or as the option declares them |
| DispatchGroups.GroupDispatchTuples | cmd/write-a/handler_pipeline.go:472-501 | the groups partition exactly the resolvable tuples, each by one key; it fails exactly on a hard resolution error |
| DispatchRender.RenderDispatch | cmd/write-a/handler_pipeline.go:358-417 | from the dispatch space: nothing exactly on a hard error or when nothing resolves; a plain command exactly when all resolvable tuples have one key; a select loads exactly when the labels are distinct; each resolvable tuple runs its own resolution and nothing else exactly when the output loads and no two different results share a key; an unresolvable tuple runs something exactly when the command is plain |
| DispatchRender.RenderArms | cmd/write-a/handler_pipeline.go:1114-1140 | one arm per tuple of every group, in order, under the tuple's label |
| DispatchRender.RenderConfigSettings | cmd/write-a/handler_pipeline.go:1031-1071 | one setting per tuple, named after it |
| DispatchRender.TupleConfigSettingName | cmd/write-a/handler_pipeline.go:1073-1101 | the sanitised values in the order of the sorted dispatch variables |
| DispatchRender.SanitizedIs | cmd/write-a/handler_pipeline.go:1085-1101 | a sanitised value keeps its length, letters, digits and underscores, and has an underscore for any other byte |
| DispatchRender.PlatformKey | cmd/write-a/handler_pipeline.go:1130-1140 | over the architecture alone the select() key is the platform constraint, x86_32 for i686 |
| DispatchRender.PlatformLabelsDiffer | cmd/write-a/handler_pipeline.go:1130-1140 | over the architecture alone, different tuples have different labels |
| DispatchRender.OneOptionLabels | cmd/write-a/handler_pipeline.go:1073-1140 | over one option, labels agree exactly when the sanitised values do |
| DispatchRender.PlainLabelsDiffer | cmd/write-a/handler_pipeline.go:1073-1140 | with letter-and-digit values, different tuples of any space have different labels |
| DispatchRender.TwoValuesLoad | cmd/write-a/handler_pipeline.go:1073-1140 | for an option with two values and two results, the BUILD file loads exactly when the sanitised values differ |
| DispatchRender.CollidingValuesDoNotLoad | cmd/write-a/handler_pipeline.go:1085-1101 | the values 1.2 and 1_2 collide |
| DispatchRender.UnresolvedValueIsServed | cmd/write-a/handler_pipeline.go:408-416 | a concrete element whose unresolvable value runs the other value's command |
| DispatchGroups.KeyExact | cmd/write-a/handler_pipeline.go:484-489 | two results without separator bytes have one group key exactly when they are equal up to a command list being empty or one empty command |
| DispatchRender.KeysTellApartExactly | cmd/write-a/handler_pipeline.go:484-489 | so results are told apart exactly when no two of them differ by nothing but an empty command standing alone |
| DispatchGroups.EnvKeyInjective | cmd/write-a/handler_pipeline.go:555-564 | the same for the environment part |
| DispatchGroups.EmptyCommandCollides | cmd/write-a/handler_pipeline.go:484-489 | two results that differ in that way and share a key |
| PipelineInstall.ResolveAt | cmd/write-a/handler_pipeline.go:299-352 | the closure that resolves one tuple returns what the element's branches decide on it |
| PipelineInstall.DecidedIs | cmd/write-a/handler_pipeline.go:299-352 | that is one outcome, fixed by the branches alone: both variable layers hold the last matching setting over the base, the tuple seeded above the project layer; variables that do not resolve are reported first, then a config branch that fires and does not decode; else the command lists are those of the last firing branches, substituted |
| PipelineInstall.TupleDecides | cmd/write-a/conditional.go:801-847 | dispatching on the mentioned variables loses nothing: the tuple of any build configuration resolves to what all branches decide on the whole configuration |
| PipelineInstall.RunsDecidedExactly | cmd/write-a/handler_pipeline.go:268-417 | every build runs what the element's branches, by that description, decide on its configuration and nothing else, if and only if the BUILD file loads and no two different results share a key |
| PipelineInstall.UndecidedRuns | cmd/write-a/handler_pipeline.go:408-416 | a build on whose configuration the branches decide no result runs something if and only if the select() collapsed |
| PipelineInstall.RenderInstallGenruleBody | cmd/write-a/handler_pipeline.go:268-417 | from the element's own branches to the rendered rule: all of the above for the dispatch space of all its branches |
| PipelineInstall.SpaceOnce | cmd/write-a/conditional.go:801-847 | that space is determined by the branches and the options |
| ConfigOverrides.ApplyConfigConditionalOverrides | cmd/write-a/handler_pipeline.go:433-461 | each command list comes from the last firing branch that sets it, `commands` standing for install; it fails exactly when a firing branch does not decode |
| ConfigOverrides.ResolvedOnce | cmd/write-a/handler_pipeline.go:433-461 | that description determines the lists |
| ConfigOverrides.NewestBranch | cmd/write-a/handler_pipeline.go:433-461 | a firing branch that decodes replaces each list it sets with its own, `commands` going before `install`, and leaves the others as they were |
| Tracer.PidState.HandleSyscallStop | cmd/build-tracer/native_linux_amd64.go:235-302 | one stop: new state and written lines |
| Tracer.Loop.Step | cmd/build-tracer/native_linux_amd64.go:134-218 | one turn of the stop loop: table, trace and exit status |
| Tracer.Loop.Run | cmd/build-tracer/native_linux_amd64.go:134-218 | the whole loop over any event sequence |
| Tracer.InterleavingIrrelevant | cmd/build-tracer/native_linux_amd64.go:134-302 | a tracee's state and lines depend only on its own stops, in any interleaving |
| Tracer.SameStopsSameLines | cmd/build-tracer/native_linux_amd64.go:160-200 | fork events never matter, in either order with the child's first stop |
| Tracer.LinesAreOwed | cmd/build-tracer/native_linux_amd64.go:235-302 | from rest, the lines are those owed for the paired enter and exit stops if and only if no lost exit leaves a capture that a later round prints |
| Tracer.FailureOwesNothing | cmd/build-tracer/native_linux_amd64.go:273-300 | a call the kernel failed, with whatever error, owes no line |
| Tracer.SuccessOwesExec | cmd/build-tracer/native_linux_amd64.go:273-300 | an execve that returned zero owes its line, with the arguments of its enter |
| Tracer.SuccessOwesOpen | cmd/build-tracer/native_linux_amd64.go:273-300 | a read-only openat that returned a descriptor owes its line, with that descriptor |
| Tracer.SignedReads | cmd/build-tracer/native_linux_amd64.go:273-300 | a result register is read as the two's complement number it holds |
| Tracer.TraceIsExact | cmd/build-tracer/native_linux_amd64.go:134-302 | in any interleaving a tracee's lines are exactly its successful execves and captured read-only opens, in order, with the arguments of the enter, if and only if no lost exit is misreported |
| Tracer.GuardedTraceIsExact | cmd/build-tracer/native_linux_amd64.go:134-302 | they are whenever no unreadable exit follows an enter that captured something |
| Tracer.StaleCaptureAfterUnreadableExit | cmd/build-tracer/native_linux_amd64.go:235-302 | a concrete run in which a lost exit is misreported |
| TraceLine.EmitExecve | cmd/build-tracer/native_linux_amd64.go:385-404 | the text of a line |
| TraceReading.PidReadBack | cmd/build-tracer/native_linux_amd64.go:385-387 | the line begins with the decimal pid and two spaces |
| TraceLine.StraceQuote | cmd/build-tracer/native_linux_amd64.go:468-492 | the quoting loop |
| TraceReading.HexWritten | cmd/build-tracer/native_linux_amd64.go:483-489 | a control byte is written as the two hexadecimal digits of its value |
| TraceLine.ParseExecveLine | cmd/convert-element-trace/main.go:1138-1172 | the index-driven parser computes its specification on every line |
| StraceLines.OnlySuccessIsRead | cmd/convert-element-trace/main.go:1138-1158 | a line that is read mentions the call, says `= 0` in its last twelve bytes, and is neither unfinished nor resumed |
| StraceLines.StraceLineRead | cmd/convert-element-trace/main.go:1138-1172 | for any head, path, arguments, environment text and result: a line as strace prints it is read exactly when it says success and holds no resumption marker, and then gives the arguments back, unescaped |
| StraceLines.SuccessIsRead | cmd/convert-element-trace/main.go:1138-1172 | a call that returned 0 is read, environment comment included |
| StraceLines.FailureIsRefused | cmd/convert-element-trace/main.go:1149-1152 | a call that returned -1 is refused, whatever the error text, provided that has at least five bytes and does not itself say `= 0` |
| TraceLine.ParseArgvBlock | cmd/convert-element-trace/main.go:1208-1229 | the argument scanner |
| TraceLine.IndexAfterQuoted | cmd/convert-element-trace/main.go:1174-1190 | the closing quote, backslashes skipped |
| TraceLine.IndexUnescapedClose | cmd/convert-element-trace/main.go:1192-1206 | the first closing bracket outside quotes |
| TraceLine.UnescapeStraceString | cmd/convert-element-trace/main.go:1231-1258 | the unescaping loop |
| TraceRoundTrip.ParseUndoesEmit | cmd/convert-element-trace/main.go:1138-1258 | for every pid, cwd, path and argument vector: the emitted line parses to the argument vector if and only if it holds no resumption marker and either the head does not mention the call and no argument byte was hex-escaped, or the first mention ends the cwd, there are no arguments and the path reads as a list |
| TraceRoundTrip.ParsedOtherwise | cmd/convert-element-trace/main.go:1138-1172 | without a mention the unescaped arguments come back; with one nothing does, unless it ends the cwd and the path begins with a bracket |
| TraceRoundTrip.MentioningCwdIsRefused | cmd/convert-element-trace/main.go:1138-1145 | in a directory `/execve(1)` no line is read, whatever is executed |
| TraceRoundTrip.PathReadAsArguments | cmd/convert-element-trace/main.go:1138-1172 | in a directory `/execve(` the path `[]` is read as the empty argument vector, whatever the arguments |
| TraceRoundTrip.HeadIsQuiet | cmd/convert-element-trace/main.go:1138-1145 | a cwd without hex-escaped bytes is mentioned from exactly when it holds `execve(` |
| TraceReading.CwdReadBack | cmd/convert-element-trace/main.go:449-468 | for every cwd the annotation gives it back if and only if it holds no control byte |
| TraceReading.NoAnnotationNoCwd | cmd/convert-element-trace/main.go:449-468 | an annotation inside the arguments is not taken for the cwd |
| CompileIndex.Graph.constructor | cmd/convert-element-trace/main.go:885-908 | the four maps answer every key as a scan for the last matching event would |
| CompileIndex.Graph.LookupCompile | cmd/convert-element-trace/main.go:871-883 | the last compile by joined path, else by output path, else by base name |
| CompileIndex.TiersInOrder | cmd/convert-element-trace/main.go:871-883 | the joined path is tried first, then the output path, then the base name; each answers with the last compile that wrote it |
| CompileIndex.ResolveKeepsBase | cmd/convert-element-trace/main.go:871-883 | every tier answers with the object's base name; an object is unresolved exactly when no compile produced that base name |
| CompileIndex.LibraryNameRead | cmd/convert-element-trace/main.go:910-917 | an archive's library name is what stands between `lib` and `.a`, wherever the archive lies |
| RuleRecovery.PerTargetIntentFlags | cmd/convert-element-trace/main.go:679-699 | exactly the flags the database declares for the target in a flag variable |
| RuleRecovery.DeclaringVariables | cmd/convert-element-trace/main.go:679-699 | the four variables whose values declare flags |
| RuleRecovery.StripDefaults | cmd/convert-element-trace/main.go:704-716 | order-preserving removal of undeclared default flags |
| RuleRecovery.ToolchainDefaults | cmd/convert-element-trace/main.go:718-757 | which flags are a toolchain's own: optimisation, debug information, position independence |
| RuleRecovery.BuildRule | cmd/convert-element-trace/main.go:1038-1117 | a rule exists exactly when a source is known, and holds exactly the justified sources, flags, defines and deps |
| RuleRecovery.RuleNamed | cmd/convert-element-trace/main.go:1052-1117 | a library is named by what stands between `lib` and `.a`, a binary by its file name |
| RuleRecovery.MembersExact | cmd/convert-element-trace/main.go:1035-1117 | sources and defines are exactly those of the compiles its objects resolve to, and of a link itself |
| RuleRecovery.DepsExact | cmd/convert-element-trace/main.go:1098-1109 | a binary depends exactly on a local label for each library archived in the trace, and else on the imported label, if there is one |
| RuleRecovery.BuildRules | cmd/convert-element-trace/main.go:1035-1122 | one rule per archive and link with sources, libraries then binaries, each sorted by name |
| RuleRecovery.DefaultFlagExact | cmd/convert-element-trace/main.go:1035-1122 | a default flag is kept if and only if a constituent compile (or the link) carried it and the database declares it for that same object or link |
| RuleRecovery.NothingElseIsLost | cmd/convert-element-trace/main.go:1035-1122 | every source, define and non-default flag of every resolved object is kept |
| RuleRecovery.RecoveredOnce | cmd/convert-element-trace/main.go:1035-1122 | the description determines the rule |
| MakeDatabase.ParseAssignmentWithOp | cmd/convert-element-trace/makedb.go:220-236 | the candidate loop |
| MakeDatabase.LeftmostOperatorWins | cmd/convert-element-trace/makedb.go:220-236 | the parser always splits at the leftmost operator, whatever the value contains |
| PrintedDatabase.AssignmentReadBack | cmd/convert-element-trace/makedb.go:220-256 | a printed assignment is read back exactly |
| MakeDatabase.MakeDB.ParseLine | cmd/convert-element-trace/makedb.go:104-199 | one turn of the line loop |
| MakeDatabase.AssignmentFiles | cmd/convert-element-trace/makedb.go:141-150 | an assignment ends the pending rule, which is kept |
| MakeDatabase.PatternRuleSkipped | cmd/convert-element-trace/makedb.go:156-163 | a pattern rule changes nothing |
| MakeDatabase.RuleOpens | cmd/convert-element-trace/makedb.go:164-196 | a rule line keeps the pending rule and opens one for its first target |
| MakeDatabase.MakeDB.Parse | cmd/convert-element-trace/makedb.go:93-204 | the whole loop over any bytes, cut into lines as the scanner cuts them |
| MakeDatabase.ScannerLines | cmd/convert-element-trace/makedb.go:99-104 | the scanner drops a carriage return before a newline and stops at a line longer than its buffer |
| PrintedDatabase.LinesOfBytes | cmd/convert-element-trace/makedb.go:99-104 | the scanner gives back the printed lines |
| PrintedDatabase.ParseUndoesPrint | cmd/convert-element-trace/makedb.go:93-204 | reading the bytes of a printed database records every item: last rule per target, recipes across comments, target variables in order |
| PrintedDatabase.RecordIsMeaning | cmd/convert-element-trace/makedb.go:137-150 | the record is what make means after every item if and only if every variable assignment agrees where it is reached |
| PrintedDatabase.FinalValue | cmd/convert-element-trace/makedb.go:137-150 | the final record of a variable is make's if and only if its last assignment that is not conditional agrees, whatever went wrong before it |
| PrintedDatabase.FinalRecordExact | cmd/convert-element-trace/makedb.go:93-204 | the final record of a database is make's if and only if that holds of every variable |
| PrintedDatabase.ConditionalExact | cmd/convert-element-trace/makedb.go:141-144 | one item is recorded as make means it if and only if the variable is new, or the operator is ?=, or += meets an empty value and spells no ?=, or any other operator spells no ?= or repeats the value |
| PrintedDatabase.StrayConditionalIsDropped | cmd/convert-element-trace/makedb.go:141-144 | `A = x?=y` is dropped when A has another value |
| PrintedDatabase.AppendReplaces | cmd/convert-element-trace/makedb.go:141-144 | `A += y` is recorded as y where make has x y |
| MakeVars.ExpandMakeVarsOnce | cmd/convert-element-trace/install_mapping.go:170-195 | the one-pass scanner |
| MakeVars.PlainKept | cmd/convert-element-trace/install_mapping.go:170-195 | text that opens no reference is kept, dollar signs included |
| MakeVars.ReferenceReplaced | cmd/convert-element-trace/install_mapping.go:170-195 | a closed reference of either kind is replaced by its value, or by nothing |
| MakeVars.UnclosedKept | cmd/convert-element-trace/install_mapping.go:180-184 | a reference that is never closed is kept |
| MakeVars.ExpandMakeVars | cmd/convert-element-trace/install_mapping.go:156-165 | the bounded loop: 32 passes, or a fixed point of one pass |
| MakeVars.ExpansionIsEvaluation | cmd/convert-element-trace/install_mapping.go:156-195 | expansion is full recursive evaluation when references nest at most 32 deep, and leaves references otherwise |
| MakeVars.ExpansionExact | cmd/convert-element-trace/install_mapping.go:156-195 | equality with the value if and only if 32 passes suffice |
| MakeVars.ChainExpands | cmd/convert-element-trace/install_mapping.go:156-165 | a chain of up to 32 references expands to its value, a longer one leaves a reference |
| Rendezvous.HitComesFromOnePublication | cmd/trace-lookup/main.go:278-365 | in every run, a hit marker implies outputs already in place that come from one publication under the same srckey and platform |
| Rendezvous.BundleComesFromOnePublication | cmd/trace-lookup/main.go:201-240 | in every run, a bundle output is one published bundle of the same srckey and platform, or it is empty and the reader missed: its entry was absent or the root evicted when it looked |
| Rendezvous.BundleStep | cmd/trace-lookup/main.go:201-240 | the step that writes it: empty exactly on such a miss, and otherwise the body of one publication on record |
| Rendezvous.LogIsHistory | cmd/trace-publish/main.go:160-269 | every recorded publication was put there by a publisher's cache update |
| Rendezvous.EntryIsComplete | cmd/trace-publish/main.go:160-323 | at its update an entry reaches only stored blobs if and only if every eviction of one of them since FindMissing was followed by a put |
| Rendezvous.EvictionLeavesDanglingEntry | cmd/trace-publish/main.go:276-323 | a run showing the condition is needed, for any publication |
| Rendezvous.RunOk | cmd/trace-publish/main.go:110-323 | the invariant every interleaving keeps |
| StoreClients.Store.UploadTree | cmd/trace-publish/main.go:276-323 | the store gains the publication's blobs and nothing else |
| StoreClients.Store.Publish | cmd/trace-publish/main.go:160-269 | the store and the cache after a publish |
| StoreClients.Store.FindRoot | cmd/trace-lookup/main.go:336-365 | a miss is an absent entry or an evicted root |
| StoreClients.Store.LookupTrace | cmd/trace-lookup/main.go:278-365 | for every publication: exactly when the lookup hits with it, misses, or fails hard |
| StoreClients.Store.MaterializeConfigBundle | cmd/trace-lookup/main.go:201-240 | for every bundle: exactly when the lookup gives it, gives none, or fails hard |
| StoreClients.PublishIsARun | cmd/trace-publish/main.go:160-323 | what the sequential publish leaves behind is what a publisher's steps of the interleaved model lead to |
| StoreClients.ReaderAlone | cmd/trace-lookup/main.go:201-365 | a reader of the interleaved model, left alone, comes to the verdict of the sequential lookup |
| StoreClients.BundleAlone | cmd/trace-lookup/main.go:201-240 | after its marker, a reader left alone ends with the bundle of that verdict, with an empty one when there is none, or fails; its other outputs stay |
| StoreClients.LookupAlone | cmd/trace-lookup/main.go:128-365 | from the start, both sides: a reader that asks for the bundle ends with one or fails, and one that does not writes none |
| StoreClients.RepublishIsNoOp | cmd/trace-publish/main.go:276-323 | publishing what is there changes no blob |
| StoreClients.RoundTrip | cmd/trace-publish/main.go:160-269 | publish then look up: exactly what was published |
| StoreClients.BundleRoundTrip | cmd/trace-publish/main.go:160-269 | publish a bundle then look it up: that bundle |
| CEmbed.EscapeCString | cmd/cc-embed/main.go:185-216 | the escaping loop |
| CEmbed.DecodeUndoesEscape | cmd/cc-embed/main.go:185-216 | the string initializer decodes to the input, for every byte sequence |
| CEmbed.EveryLineIsALiteral | cmd/cc-embed/main.go:172-184 | every physical line is a complete literal: that of the matching line of the data |
| CEmbed.FormatByteArray | cmd/cc-embed/main.go:220-233 | the element list loop |
| CEmbed.DecodeUndoesFormat | cmd/cc-embed/main.go:220-233 | the element list decodes to the bytes |
| CEmbed.Encode | cmd/cc-embed/main.go:133-169 | both files declare the same symbol, whose initializer decodes to the data; the declared length is the number of bytes, the terminator included; the header carries the guard, the export header and the export symbol, and the source includes the header |
| Finalize.InstallNameOf | cmd/finalize-b/main.go:222-236 | the install filegroup of an element is named after the directory of its BUILD file |
| Finalize.TopLevelInstallName | cmd/finalize-b/main.go:229-234 | at the top of the tree that name is one no filegroup has |
| Finalize.CleanupBuild | cmd/finalize-b/main.go:238-344 | unparsable and unconverged files are returned as they are; the others are stripped and pruned |
| Finalize.FineIs | cmd/finalize-b/main.go:258-283 | what makes a file converged: one of four rules, and not a stub of either converter |
| Finalize.ScaffoldingIs | cmd/finalize-b/main.go:286-334 | what scaffolding is: trace loads, zero files, five filegroups and three tags |
| Finalize.PruneUnusedLoads | cmd/finalize-b/main.go:351-390 | the load filter |
| Finalize.CleanedExactly | cmd/finalize-b/main.go:238-390 | exactly the scaffolding goes, and a loaded name stays exactly when a surviving statement calls it |
| Finalize.CleanedInOrder | cmd/finalize-b/main.go:238-390 | apart from loads, the statements that are no scaffolding, in their order; the imports left are those a surviving statement calls, in their order, and no load is left empty |
| Finalize.CalledIs | cmd/finalize-b/main.go:351-390 | a name is called in a statement exactly when a call of it occurs there at any depth |
| Finalize.MentionedNamesAreDropped | cmd/finalize-b/main.go:346-390 | a name that is loaded but never called is dropped |
| Finalize.CleanBuildTwice | cmd/finalize-b/main.go:238-344 | cleaning one BUILD file twice is cleaning it once |
| Finalize.ComputeCleanupPlan | cmd/finalize-b/main.go:157-184 | the plan records whether a cleaned BUILD file mentions the rules package |
| Finalize.CleanupModule | cmd/finalize-b/main.go:396-426 | the dependency filter |
| Finalize.RulesDepIs | cmd/finalize-b/main.go:396-426 | the two statements that make up the dependency |
| Finalize.Run | cmd/finalize-b/main.go:87-136 | the finished tree |
| Finalize.FinishedBuild | cmd/finalize-b/main.go:87-136 | every converged BUILD file of the finished tree parses to exactly that |
| Finalize.FinishedModule | cmd/finalize-b/main.go:396-426 | the finished MODULE.bazel parses to the same statements, without the dependency exactly when no finished BUILD file mentions the package |
| Finalize.BuildFilesAnywhere | cmd/finalize-b/main.go:87-136 | BUILD files are known by their last segment, in any directory |
| Finalize.FinalizeTwice | cmd/finalize-b/main.go:87-184 | finalising a finalised tree changes no file |
| Finalize.DependencyDroppedExactly | cmd/finalize-b/main.go:191-426 | the rules dependency goes exactly when no finished BUILD file mentions the package |
| Finalize.OthersUntouched | cmd/finalize-b/main.go:87-136 | unconverged BUILD files and all other files come through unchanged |
| StageB.ProjectB.StageSplitDir | cmd/stage-b/main.go:321-369 | every member staged, nothing else touched, changed exactly when some member differed |
| StageB.ProjectB.StageElement | cmd/stage-b/main.go:123-206 | one element: BUILD or split tree and sidecars in place, the rest untouched, changed exactly when compared content differed |
| StageB.ProjectB.StageOptionsPackage | cmd/stage-b/main.go:242-273 | the first lifter's package, written only when it differs |
| StageB.Run | cmd/stage-b/main.go:101-215 | all elements staged, no other file changed, and the sorted report lists exactly what differed |
| StageB.StagedEqualsSource | cmd/stage-b/main.go:101-215 | after a run every staged file reads as its source |
| StageB.ElementFiles | cmd/stage-b/main.go:123-206 | by their full paths: the BUILD file and sidecars of a single element, or every member of a split tree |
| StageB.OptionsFile | cmd/stage-b/main.go:208-273 | the options package is that of the first element by name that declares a flag, and is left alone without one |
| StageB.SecondRunIsQuiet | cmd/stage-b/main.go:101-215 | an immediate second run reports nothing and changes no file |

## Left out

- gRPC, protobuf encoding, hashing, retries and temporary directories: the store is abstract and its operations are atomic steps.
- The no-endpoint and failed-dial exits of trace-lookup (cmd/trace-lookup/main.go:96-128), which do not write the bundle output.
- Real ptrace, /proc reads, signals and thread-group exec; stops and registers are an input stream.
- `openat` line text (cmd/build-tracer/native_linux_amd64.go:417-461): the tracer model keeps its fields.
- Classifying argument vectors into events (cmd/convert-element-trace/main.go:476-612 and 764-793): a flag table; events are inputs of the index.
- The install-recipe reader (cmd/convert-element-trace/install_mapping.go:94-139), a token scan over a few known options.
- Composing and rendering environments and commands as BUILD or shell text; settings and arms are modelled by name and content.
- YAML decoding, `project.conf` loading and include expansion; files on disk arrive parsed or malformed.
- White space other than single spaces around connectives, and white space just inside parentheses, in the condition trees; the parser itself is modelled on every string.
- Unicode white space and multi-byte characters in scanned text.
- The warning about elements that disagree on lifted options, and symbolic links and escaping members of split trees.
- Aliasing of syntax-tree nodes in finalize-b, whose loads are edited in place: statements are values here.
- Recovered rule names need not be unique, and `:lib` labels need not name an emitted rule; neither is claimed.
- Trigraph replacement in generated C source.
- DispatchGroups.KeyExact: asks for results without the separator bytes: no NUL, no SOH in strip commands, no `=` in the name of an environment variable.
- PipelineInstall.RunsDecidedExactly: asks for branches as the loader builds them, and for options that each have a value.
- Conditional.CompiledAgreesExactly: asks for branches as the loader builds them (constraints only without a single variable), which Expressions.MakeBranch guarantees.
