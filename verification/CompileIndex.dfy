/**
 cmd/convert-element-trace/main.go: the index from object files to the compile events that
 produced them.
 */
module CompileIndex {
  import opened Options
  import opened Paths
  import opened Sequences
  import opened Text

  datatype Kind = Compile | Link | Archive

  datatype Event = Event(kind: Kind, cwd: string, out: string, srcs: seq<string>, objs: seq<string>,
                         libs: seq<string>, copts: seq<string>, defines: seq<string>)

  // ------------------------------------------------------------- names

  /** stripLibPrefixSuffix */
  function LibraryName(p: string): string {
    var base := Base(p);
    var stem := if |base| >= 2 && base[|base| - 2..] == ".a" then base[..|base| - 2] else base;
    if HasPrefix(stem, "lib") then stem[3..] else stem
  }

  /** The name between `lib` and `.a`, wherever the archive lies. */
  lemma LibraryNameRead(dir: string, name: string)
    requires '/' !in name
    ensures LibraryName(dir + "/" + ("lib" + name + ".a")) == name && LibraryName("lib" + name + ".a") == name
  {
    var file := "lib" + name + ".a";
    BaseOfFile(dir, file);
    assert file[|file| - 2..] == ".a" && file[..|file| - 2] == "lib" + name;
    assert ("lib" + name)[..3] == "lib" && ("lib" + name)[3..] == name;
  }

  // ------------------------------------------------------------- the linear scan

  /** What an event can be looked up by. */
  datatype Tier = CwdPath | OutPath | Basename | Library

  function FiledUnder(ev: Event, tier: Tier): Option<string> {
    match tier
    case CwdPath => if ev.kind == Compile && ev.cwd != "" then Some(ev.cwd + "/" + ev.out) else None
    case OutPath => if ev.kind == Compile then Some(ev.out) else None
    case Basename => if ev.kind == Compile then Some(Base(ev.out)) else None
    case Library => if ev.kind == Archive then Some(LibraryName(ev.out)) else None
  }

  predicate Matches(ev: Event, tier: Tier, key: string) {
    FiledUnder(ev, tier) == Some(key)
  }

  /** The last event of the trace that matches. */
  function LastMatch(events: seq<Event>, tier: Tier, key: string): (r: Option<Event>)
    ensures r.None? <==> forall ev | ev in events :: !Matches(ev, tier, key)
    ensures r.Some? ==> exists i | 0 <= i < |events| ::
      events[i] == r.value && Matches(events[i], tier, key) && forall j | i < j < |events| :: !Matches(events[j], tier, key)
  {
    if events == [] then None
    else
      var last := |events| - 1;
      assert events == events[..last] + [events[last]];
      if Matches(events[last], tier, key) then Some(events[last]) else LastMatch(events[..last], tier, key)
  }

  function OfKind(events: seq<Event>, kind: Kind): (r: seq<Event>)
    ensures forall ev :: ev in r <==> ev in events && ev.kind == kind
  {
    if events == [] then []
    else
      var last := |events| - 1;
      assert events == events[..last] + [events[last]];
      OfKind(events[..last], kind) + if events[last].kind == kind then [events[last]] else []
  }

  /** The trace built a static library of that name. */
  ghost predicate IsLocal(events: seq<Event>, lib: string) {
    exists ev | ev in events :: ev.kind == Archive && LibraryName(ev.out) == lib
  }

  /** The producer of an object, by three scans of decreasing precision. */
  function Resolve(events: seq<Event>, cwd: string, obj: string): Option<Event> {
    var joined := if cwd != "" then LastMatch(events, CwdPath, cwd + "/" + obj) else None;
    if joined.Some? then joined
    else if LastMatch(events, OutPath, obj).Some? then LastMatch(events, OutPath, obj)
    else LastMatch(events, Basename, Base(obj))
  }

  /**
   Every tier answers with an output of the same base name, so an object file goes unresolved
   exactly when no compile produced that base name.
   */
  lemma ResolveKeepsBase(events: seq<Event>, cwd: string, obj: string)
    requires NamesFile(obj)
    ensures var r := Resolve(events, cwd, obj);
      r.Some? ==> r.value in events && r.value.kind == Compile && Base(r.value.out) == Base(obj)
    ensures Resolve(events, cwd, obj).None? <==>
      forall ev | ev in events && ev.kind == Compile :: Base(ev.out) != Base(obj)
  {
    var joined := if cwd != "" then LastMatch(events, CwdPath, cwd + "/" + obj) else None;
    if joined.Some? {
      JoinedBase(cwd, obj, joined.value.cwd, joined.value.out);
    }
    if Resolve(events, cwd, obj).None? {
      forall ev | ev in events && ev.kind == Compile
        ensures Base(ev.out) != Base(obj)
      {
        assert !Matches(ev, Basename, Base(obj));
      }
    }
  }

  // ------------------------------------------------------------- the tiers, one after the other

  /** The compile ran in a known directory and wrote this very path there. */
  ghost predicate WroteJoined(ev: Event, path: string) {
    ev.kind == Compile && ev.cwd != "" && ev.cwd + "/" + ev.out == path
  }

  ghost predicate Wrote(ev: Event, out: string) {
    ev.kind == Compile && ev.out == out
  }

  ghost predicate WroteBase(ev: Event, base: string) {
    ev.kind == Compile && Base(ev.out) == base
  }

  /** `r` is the last event of the trace that passes. */
  ghost predicate IsLast(events: seq<Event>, passes: Event -> bool, r: Event) {
    exists i | 0 <= i < |events| :: events[i] == r && passes(r) && forall j | i < j < |events| :: !passes(events[j])
  }

  lemma LastMatchIsLast(events: seq<Event>, tier: Tier, key: string, passes: Event -> bool)
    requires forall ev :: passes(ev) <==> Matches(ev, tier, key)
    ensures LastMatch(events, tier, key).Some? <==> exists ev | ev in events :: passes(ev)
    ensures LastMatch(events, tier, key).Some? ==> IsLast(events, passes, LastMatch(events, tier, key).value)
  {
    if LastMatch(events, tier, key).Some? {
      var i :| 0 <= i < |events| && events[i] == LastMatch(events, tier, key).value && Matches(events[i], tier, key)
        && forall j | i < j < |events| :: !Matches(events[j], tier, key);
      assert events[i] in events && passes(events[i]);
    }
  }

  /**
   An object is the output of the last compile that wrote it in the consumer's directory; failing that,
   of the last that wrote a path spelled like it; failing that, of the last whose output has its name.
   */
  lemma TiersInOrder(events: seq<Event>, cwd: string, obj: string)
    ensures var r := Resolve(events, cwd, obj);
      if cwd != "" && exists ev | ev in events :: WroteJoined(ev, cwd + "/" + obj)
      then r.Some? && IsLast(events, ev => WroteJoined(ev, cwd + "/" + obj), r.value)
      else if exists ev | ev in events :: Wrote(ev, obj)
      then r.Some? && IsLast(events, ev => Wrote(ev, obj), r.value)
      else if exists ev | ev in events :: WroteBase(ev, Base(obj))
      then r.Some? && IsLast(events, ev => WroteBase(ev, Base(obj)), r.value)
      else r.None?
  {
    LastMatchIsLast(events, CwdPath, cwd + "/" + obj, ev => WroteJoined(ev, cwd + "/" + obj));
    LastMatchIsLast(events, OutPath, obj, ev => Wrote(ev, obj));
    LastMatchIsLast(events, Basename, Base(obj), ev => WroteBase(ev, Base(obj)));
  }

  // ------------------------------------------------------------- the maps

  function At(m: map<string, Event>, k: string): Option<Event> {
    if k in m then Some(m[k]) else None
  }

  /** A map answers as a scan of the trace would. */
  ghost predicate Answers(m: map<string, Event>, events: seq<Event>, tier: Tier) {
    forall key :: At(m, key) == LastMatch(events, tier, key)
  }

  function Filed(m: map<string, Event>, ev: Event, tier: Tier): map<string, Event> {
    var key := FiledUnder(ev, tier);
    if key.Some? then m[key.value := ev] else m
  }

  lemma FiledAnswers(m: map<string, Event>, events: seq<Event>, ev: Event, tier: Tier)
    requires Answers(m, events, tier)
    ensures Answers(Filed(m, ev, tier), events + [ev], tier)
  {
    assert (events + [ev])[..|events|] == events;
    forall key
      ensures At(Filed(m, ev, tier), key) == LastMatch(events + [ev], tier, key)
    {
      assert At(m, key) == LastMatch(events, tier, key);
    }
  }

  class Graph {
    var objByCwdPath: map<string, Event>
    var objByPath: map<string, Event>
    var objByBasename: map<string, Event>
    var libByBaseName: map<string, Event>
    var archives: seq<Event>
    var links: seq<Event>

    ghost predicate Indexes(events: seq<Event>)
      reads this
    {
      && Answers(objByCwdPath, events, CwdPath)
      && Answers(objByPath, events, OutPath)
      && Answers(objByBasename, events, Basename)
      && Answers(libByBaseName, events, Library)
      && archives == OfKind(events, Archive)
      && links == OfKind(events, Link)
    }

    /** One turn of correlate's loop. */
    method Add(ev: Event, ghost seen: seq<Event>)
      requires Indexes(seen)
      modifies this
      ensures Indexes(seen + [ev])
    {
      FiledAnswers(objByCwdPath, seen, ev, CwdPath);
      FiledAnswers(objByPath, seen, ev, OutPath);
      FiledAnswers(objByBasename, seen, ev, Basename);
      FiledAnswers(libByBaseName, seen, ev, Library);
      assert (seen + [ev])[..|seen|] == seen;
      match ev.kind {
        case Compile =>
          if ev.cwd != "" {
            objByCwdPath := objByCwdPath[ev.cwd + "/" + ev.out := ev];
          }
          objByPath := objByPath[ev.out := ev];
          objByBasename := objByBasename[Base(ev.out) := ev];
        case Archive =>
          archives := archives + [ev];
          libByBaseName := libByBaseName[LibraryName(ev.out) := ev];
        case Link =>
          links := links + [ev];
      }
    }

    /** correlate */
    constructor (events: seq<Event>)
      ensures Indexes(events)
    {
      objByCwdPath, objByPath, objByBasename, libByBaseName := map[], map[], map[], map[];
      archives, links := [], [];
      new;
      for i := 0 to |events|
        invariant Indexes(events[..i])
      {
        PrefixStep(events, i);
        Add(events[i], events[..i]);
      }
      WholePrefix(events);
    }

    /** lookupCompile */
    method LookupCompile(consumerCwd: string, obj: string, ghost events: seq<Event>) returns (r: Option<Event>)
      requires Indexes(events)
      ensures r == Resolve(events, consumerCwd, obj)
    {
      if consumerCwd != "" {
        var key := consumerCwd + "/" + obj;
        assert At(objByCwdPath, key) == LastMatch(events, CwdPath, key);
        if key in objByCwdPath {
          return Some(objByCwdPath[key]);
        }
      }
      assert At(objByPath, obj) == LastMatch(events, OutPath, obj);
      if obj in objByPath {
        return Some(objByPath[obj]);
      }
      assert At(objByBasename, Base(obj)) == LastMatch(events, Basename, Base(obj));
      r := if Base(obj) in objByBasename then Some(objByBasename[Base(obj)]) else None;
    }

    method HasLibrary(name: string, ghost events: seq<Event>) returns (found: bool)
      requires Indexes(events)
      ensures found <==> IsLocal(events, name)
    {
      assert At(libByBaseName, name) == LastMatch(events, Library, name);
      found := name in libByBaseName;
      if found {
        assert Matches(libByBaseName[name], Library, name);
      } else {
        assert forall ev | ev in events :: !Matches(ev, Library, name);
      }
    }
  }
}
