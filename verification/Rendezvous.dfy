/**
 cmd/trace-publish and cmd/trace-lookup over a shared content-addressed store and action
 cache: any number of publishers, readers and evictions, interleaved one store call (or one
 output file) at a time.
 */
module Rendezvous {
  import opened Options

  type Hash = nat

  datatype FileEntry = FileEntry(name: string, hash: Hash)
  datatype Directory = Directory(files: seq<FileEntry>)

  /** Digests and proto encodings. */
  datatype World = World(digest: string -> Hash, marshal: Directory -> string,
                         unmarshal: string -> Option<Directory>, marshalTree: Directory -> string)

  /** Digests are injective, and a Directory survives encoding. */
  ghost predicate Sound(w: World) {
    && (forall a, b | w.digest(a) == w.digest(b) :: a == b)
    && (forall d :: w.unmarshal(w.marshal(d)) == Some(d))
  }

  /** The synthetic action digests: separate key spaces for traces and config bundles. */
  datatype Key = TraceKey(srckey: string, platform: string) | ConfigKey(srckey: string, platform: string)

  datatype ActionResult = ActionResult(tree: Hash, root: Hash)

  const TRACE_LOG := "trace.log"
  const MAKE_DB := "make-db.txt"
  const BUNDLE := "cmake-config-bundle.tar"
  const HIT := "hit\n"
  const MISS := "miss\n"

  /** One staged directory: file names (in packing order) and bodies, and the key it goes under. */
  datatype Publication = Publication(key: Key, files: seq<(string, string)>)

  /** What trace-publish stages: trace.log, make-db.txt only when asked for. */
  function TracePublication(srckey: string, platform: string, trace: string, makeDB: Option<string>): Publication {
    Publication(TraceKey(srckey, platform),
                (if makeDB.Some? then [(MAKE_DB, makeDB.value)] else []) + [(TRACE_LOG, trace)])
  }

  function ConfigPublication(srckey: string, platform: string, bundle: string): Publication {
    Publication(ConfigKey(srckey, platform), [(BUNDLE, bundle)])
  }

  function DirectoryOf(w: World, p: Publication): Directory {
    Directory(seq(|p.files|, i requires 0 <= i < |p.files| => FileEntry(p.files[i].0, w.digest(p.files[i].1))))
  }

  function RootBlob(w: World, p: Publication): string {
    w.marshal(DirectoryOf(w, p))
  }

  function TreeBlob(w: World, p: Publication): string {
    w.marshalTree(DirectoryOf(w, p))
  }

  function RootHash(w: World, p: Publication): Hash {
    w.digest(RootBlob(w, p))
  }

  function TreeHash(w: World, p: Publication): Hash {
    w.digest(TreeBlob(w, p))
  }

  function FileHashes(w: World, p: Publication): set<Hash> {
    set i | 0 <= i < |p.files| :: w.digest(p.files[i].1)
  }

  /** The blobs uploadTree is responsible for. */
  function Needed(w: World, p: Publication): set<Hash> {
    {RootHash(w, p)} + FileHashes(w, p)
  }

  /** Every blob the published entry reaches. */
  function Reached(w: World, p: Publication): set<Hash> {
    Needed(w, p) + {TreeHash(w, p)}
  }

  /** `body` is the content a publisher uploads under `h`. */
  ghost predicate IsBlobOf(w: World, p: Publication, h: Hash, body: string) {
    w.digest(body) == h && (body == RootBlob(w, p) || exists i | 0 <= i < |p.files| :: body == p.files[i].1)
  }

  function ResultOf(w: World, p: Publication): ActionResult {
    ActionResult(TreeHash(w, p), RootHash(w, p))
  }

  /** The files of the first `n` entries by name, as materialising them leaves them on disk. */
  function FileMap(files: seq<(string, string)>, n: nat): map<string, string>
    requires n <= |files|
  {
    if n == 0 then map[] else FileMap(files, n - 1)[files[n - 1].0 := files[n - 1].1]
  }

  // ------------------------------------------------------------- processes

  /** A publisher works through its publications (the trace, then the bundle if there is one). */
  datatype Publisher =
    | Ready(todo: seq<Publication>)
    | Uploading(pub: Publication, missing: set<Hash>, rest: seq<Publication>)
    | UpdateDue(pub: Publication, rest: seq<Publication>)
    | Stopped

  datatype Phase = TracePhase | BundlePhase

  datatype Request = Request(srckey: string, platform: string, wantTrace: bool, wantMakeDB: bool, wantBundle: bool)

  function KeyFor(req: Request, phase: Phase): Key {
    match phase
    case TracePhase => TraceKey(req.srckey, req.platform)
    case BundlePhase => ConfigKey(req.srckey, req.platform)
  }

  datatype Pc =
    | Query(phase: Phase)
    | CheckRoot(phase: Phase, root: Hash)
    | FetchRoot(phase: Phase, root: Hash)
    | FetchFiles(phase: Phase, dir: Directory, n: nat, scratch: map<string, string>)
    | WriteTrace(scratch: map<string, string>)
    | WriteMakeDB(scratch: map<string, string>)
    | WriteHit
    | MissTrace
    | MissMakeDB
    | MissMarker
    | Finished
    | Failed

  /** The declared output files; None until written. */
  datatype Outputs = Outputs(trace: Option<string>, makeDB: Option<string>, marker: Option<string>, bundle: Option<string>)

  datatype Reader = Reader(req: Request, pc: Pc, out: Outputs)

  /** `log` is a history variable: the publications whose action-cache update has happened. */
  datatype State = State(cas: map<Hash, string>, ac: map<Key, ActionResult>,
                         publishers: map<nat, Publisher>, readers: map<nat, Reader>,
                         log: set<Publication>)

  datatype Action =
    | FindMissing(pid: nat)
    | PutBlob(pid: nat, h: Hash, body: string)
    | PutTree(pid: nat)
    | UpdateActionResult(pid: nat)
    | Abort(pid: nat)
    | Read(rid: nat)
    | EvictBlob(h: Hash)
    | EvictEntry(key: Key)

  ghost predicate PublisherStep(w: World, s: State, a: Action, s': State) {
    match a
    case FindMissing(pid) =>
      && pid in s.publishers && s.publishers[pid].Ready? && s.publishers[pid].todo != []
      && var todo := s.publishers[pid].todo;
         s' == s.(publishers := s.publishers[pid := Uploading(todo[0], Needed(w, todo[0]) - s.cas.Keys, todo[1..])])
    case PutBlob(pid, h, body) =>
      && pid in s.publishers && s.publishers[pid].Uploading?
      && var p := s.publishers[pid];
      && h in p.missing && IsBlobOf(w, p.pub, h, body)
      && (h == RootHash(w, p.pub) || RootHash(w, p.pub) !in p.missing)
      && s' == s.(cas := s.cas[h := body], publishers := s.publishers[pid := p.(missing := p.missing - {h})])
    case PutTree(pid) =>
      && pid in s.publishers && s.publishers[pid].Uploading? && s.publishers[pid].missing == {}
      && var p := s.publishers[pid];
         s' == s.(cas := s.cas[TreeHash(w, p.pub) := TreeBlob(w, p.pub)],
                  publishers := s.publishers[pid := UpdateDue(p.pub, p.rest)])
    case UpdateActionResult(pid) =>
      && pid in s.publishers && s.publishers[pid].UpdateDue?
      && var p := s.publishers[pid];
         s' == s.(ac := s.ac[p.pub.key := ResultOf(w, p.pub)],
                  publishers := s.publishers[pid := Ready(p.rest)], log := s.log + {p.pub})
    case Abort(pid) =>
      pid in s.publishers && s' == s.(publishers := s.publishers[pid := Stopped])
    case _ => false
  }

  /** After the trace side is settled the bundle is looked up, if it was asked for. */
  function AfterMarker(req: Request): Pc {
    if req.wantBundle then Query(BundlePhase) else Finished
  }

  function Missed(r: Reader, phase: Phase): Reader {
    match phase
    case TracePhase => r.(pc := MissTrace)
    case BundlePhase => r.(pc := Finished, out := r.out.(bundle := Some("")))
  }

  /** What a reader does once every file is on scratch disk. */
  function Materialized(r: Reader, phase: Phase, scratch: map<string, string>): Reader {
    match phase
    case TracePhase => r.(pc := WriteTrace(scratch))
    case BundlePhase =>
      r.(pc := Finished, out := r.out.(bundle := Some(if BUNDLE in scratch then scratch[BUNDLE] else "")))
  }

  /** One step of trace-lookup: one store call, or one output file. */
  function ReaderNext(w: World, cas: map<Hash, string>, ac: map<Key, ActionResult>, r: Reader): Reader {
    match r.pc
    case Query(phase) =>
      var key := KeyFor(r.req, phase);
      if key in ac then r.(pc := CheckRoot(phase, ac[key].root)) else Missed(r, phase)
    case CheckRoot(phase, root) =>
      if root in cas then r.(pc := FetchRoot(phase, root)) else Missed(r, phase)
    case FetchRoot(phase, root) =>
      if root !in cas then r.(pc := Failed)
      else (match w.unmarshal(cas[root])
            case None => r.(pc := Failed)
            case Some(dir) => r.(pc := FetchFiles(phase, dir, 0, map[])))
    case FetchFiles(phase, dir, n, scratch) =>
      if n >= |dir.files| then Materialized(r, phase, scratch)
      else if dir.files[n].hash !in cas then r.(pc := Failed)
      else r.(pc := FetchFiles(phase, dir, n + 1, scratch[dir.files[n].name := cas[dir.files[n].hash]]))
    case WriteTrace(scratch) =>
      if !r.req.wantTrace then r.(pc := WriteMakeDB(scratch))
      else if TRACE_LOG !in scratch then r.(pc := Failed)
      else r.(pc := WriteMakeDB(scratch), out := r.out.(trace := Some(scratch[TRACE_LOG])))
    case WriteMakeDB(scratch) =>
      if !r.req.wantMakeDB then r.(pc := WriteHit)
      else r.(pc := WriteHit, out := r.out.(makeDB := Some(if MAKE_DB in scratch then scratch[MAKE_DB] else "")))
    case WriteHit =>
      r.(pc := AfterMarker(r.req), out := r.out.(marker := Some(HIT)))
    case MissTrace =>
      if r.req.wantTrace then r.(pc := MissMakeDB, out := r.out.(trace := Some(""))) else r.(pc := MissMakeDB)
    case MissMakeDB =>
      if r.req.wantMakeDB then r.(pc := MissMarker, out := r.out.(makeDB := Some(""))) else r.(pc := MissMarker)
    case MissMarker =>
      r.(pc := AfterMarker(r.req), out := r.out.(marker := Some(MISS)))
    case Finished => r
    case Failed => r
  }

  ghost predicate Next(w: World, s: State, a: Action, s': State) {
    match a
    case Read(rid) =>
      && rid in s.readers && !s.readers[rid].pc.Finished? && !s.readers[rid].pc.Failed?
      && s' == s.(readers := s.readers[rid := ReaderNext(w, s.cas, s.ac, s.readers[rid])])
    case EvictBlob(h) => s' == s.(cas := s.cas - {h})
    case EvictEntry(key) => s' == s.(ac := s.ac - {key})
    case _ => PublisherStep(w, s, a, s')
  }

  /** A trace publication as trace-publish builds it, or a bundle publication. */
  ghost predicate Genuine(p: Publication) {
    match p.key
    case TraceKey(s, pl) => exists trace, makeDB :: p == TracePublication(s, pl, trace, makeDB)
    case ConfigKey(s, pl) => exists bundle :: p == ConfigPublication(s, pl, bundle)
  }

  ghost predicate Init(w: World, s: State) {
    && s.ac == map[] && s.log == {}
    && (forall h | h in s.cas :: w.digest(s.cas[h]) == h)
    && (forall pid | pid in s.publishers ::
          s.publishers[pid].Ready? && forall p | p in s.publishers[pid].todo :: Genuine(p))
    && (forall rid | rid in s.readers ::
          s.readers[rid].pc == Query(TracePhase) && s.readers[rid].out == Outputs(None, None, None, None))
  }

  ghost predicate IsRun(w: World, states: seq<State>, actions: seq<Action>) {
    && |states| == |actions| + 1
    && Init(w, states[0])
    && forall i | 0 <= i < |actions| :: Next(w, states[i], actions[i], states[i + 1])
  }

  // ------------------------------------------------------------- safety of a hit

  /** The requested trace-side outputs are exactly those of publication `p`. */
  ghost predicate TraceOutputsOf(p: Publication, req: Request, out: Outputs) {
    var files := FileMap(p.files, |p.files|);
    && TRACE_LOG in files
    && out.trace == (if req.wantTrace then Some(files[TRACE_LOG]) else None)
    && out.makeDB == (if req.wantMakeDB then Some(if MAKE_DB in files then files[MAKE_DB] else "") else None)
  }

  /** Publication `p` is on record under the key this reader asks for in this phase. */
  ghost predicate OnRecord(log: set<Publication>, req: Request, phase: Phase, p: Publication) {
    p in log && p.key == KeyFor(req, phase)
  }

  /** The reader is part-way through materialising `p`. */
  ghost predicate Tracks(w: World, r: Reader, p: Publication) {
    match r.pc
    case CheckRoot(_, root) => root == RootHash(w, p)
    case FetchRoot(_, root) => root == RootHash(w, p)
    case FetchFiles(_, dir, n, scratch) =>
      dir == DirectoryOf(w, p) && n <= |p.files| && scratch == FileMap(p.files, n)
    case WriteTrace(scratch) => scratch == FileMap(p.files, |p.files|)
    case WriteMakeDB(scratch) =>
      && scratch == FileMap(p.files, |p.files|) && TRACE_LOG in scratch
      && r.out.trace == (if r.req.wantTrace then Some(scratch[TRACE_LOG]) else None)
    case WriteHit => TraceOutputsOf(p, r.req, r.out)
    case _ => false
  }

  /** The phase a reader is in. */
  function PhaseOf(pc: Pc): Phase {
    match pc
    case Query(phase) => phase
    case CheckRoot(phase, _) => phase
    case FetchRoot(phase, _) => phase
    case FetchFiles(phase, _, _, _) => phase
    case WriteTrace(_) => TracePhase
    case WriteMakeDB(_) => TracePhase
    case WriteHit => TracePhase
    case MissTrace => TracePhase
    case MissMakeDB => TracePhase
    case MissMarker => TracePhase
    case Finished => BundlePhase
    case Failed => BundlePhase
  }

  predicate Tracking(pc: Pc) {
    pc.CheckRoot? || pc.FetchRoot? || pc.FetchFiles? || pc.WriteTrace? || pc.WriteMakeDB? || pc.WriteHit?
  }

  ghost predicate Clean(out: Outputs) {
    out.trace == None && out.makeDB == None && out.marker == None && out.bundle == None
  }

  /** Nothing written yet on the trace side; after a miss only empty files. */
  ghost predicate TraceSideQuiet(r: Reader) {
    match r.pc
    case MissTrace => Clean(r.out)
    case MissMakeDB => r.out.trace == (if r.req.wantTrace then Some("") else None)
      && r.out.makeDB == None && r.out.marker == None
    case MissMarker => r.out.trace == (if r.req.wantTrace then Some("") else None)
      && r.out.makeDB == (if r.req.wantMakeDB then Some("") else None) && r.out.marker == None
    case Query(TracePhase) => Clean(r.out)
    case CheckRoot(TracePhase, _) => Clean(r.out)
    case FetchRoot(TracePhase, _) => Clean(r.out)
    case FetchFiles(TracePhase, _, _, _) => Clean(r.out)
    case WriteTrace(_) => Clean(r.out)
    case WriteMakeDB(_) => r.out.makeDB == None && r.out.marker == None
    case WriteHit => r.out.marker == None
    case _ => true
  }

  /** A marker never speaks before the files it speaks for: hit means one publication's files. */
  ghost predicate MarkerHonest(log: set<Publication>, r: Reader) {
    match r.out.marker
    case None => true
    case Some(m) =>
      || (m == HIT && exists p :: OnRecord(log, r.req, TracePhase, p) && TraceOutputsOf(p, r.req, r.out))
      || (m == MISS && r.out.trace == (if r.req.wantTrace then Some("") else None)
          && r.out.makeDB == (if r.req.wantMakeDB then Some("") else None))
  }

  ghost predicate ReaderOk(w: World, log: set<Publication>, r: Reader) {
    && (Tracking(r.pc) ==> exists p :: OnRecord(log, r.req, PhaseOf(r.pc), p) && Tracks(w, r, p))
    && TraceSideQuiet(r)
    && MarkerHonest(log, r)
  }

  ghost predicate PublisherOk(p: Publisher) {
    match p
    case Ready(todo) => forall x | x in todo :: Genuine(x)
    case Uploading(pub, _, rest) => Genuine(pub) && forall x | x in rest :: Genuine(x)
    case UpdateDue(pub, rest) => Genuine(pub) && forall x | x in rest :: Genuine(x)
    case Stopped => true
  }

  /** Every blob is stored under its own digest. */
  ghost predicate Stored(w: World, cas: map<Hash, string>) {
    forall h | h in cas :: w.digest(cas[h]) == h
  }

  ghost predicate Inv(w: World, s: State) {
    && Stored(w, s.cas)
    && (forall p | p in s.log :: Genuine(p))
    && (forall key | key in s.ac :: exists p | p in s.log :: p.key == key && s.ac[key] == ResultOf(w, p))
    && (forall pid | pid in s.publishers :: PublisherOk(s.publishers[pid]))
    && (forall rid | rid in s.readers :: ReaderOk(w, s.log, s.readers[rid]))
  }

  lemma {:induction false} InitOk(w: World, s: State)
    requires Init(w, s)
    ensures Inv(w, s)
  {
  }

  // ------------------------------------------------------------- preservation

  lemma {:induction false} GenuineFiles(p: Publication)
    requires Genuine(p)
    ensures p.key.TraceKey? ==> TRACE_LOG in FileMap(p.files, |p.files|)
    ensures p.key.ConfigKey? ==> BUNDLE in FileMap(p.files, |p.files|)
  {
  }

  lemma {:induction false} ReaderOkMonotone(w: World, log: set<Publication>, log': set<Publication>, r: Reader)
    requires ReaderOk(w, log, r) && log <= log'
    ensures ReaderOk(w, log', r)
  {
    if Tracking(r.pc) {
      var p :| OnRecord(log, r.req, PhaseOf(r.pc), p) && Tracks(w, r, p);
      assert OnRecord(log', r.req, PhaseOf(r.pc), p);
    }
    if r.out.marker == Some(HIT) && exists p :: OnRecord(log, r.req, TracePhase, p) && TraceOutputsOf(p, r.req, r.out) {
      var p :| OnRecord(log, r.req, TracePhase, p) && TraceOutputsOf(p, r.req, r.out);
      assert OnRecord(log', r.req, TracePhase, p);
    }
  }

  /** The blob stored under a publication's digest is that publication's blob. */
  lemma {:induction false} StoredIs(w: World, cas: map<Hash, string>, body: string)
    requires Sound(w) && Stored(w, cas)
    ensures w.digest(body) in cas ==> cas[w.digest(body)] == body
  {
  }

  lemma {:induction false} ReaderKeepsTrack(w: World, cas: map<Hash, string>, ac: map<Key, ActionResult>, r: Reader,
                                           p: Publication)
    requires Sound(w) && Stored(w, cas) && Genuine(p)
    requires Tracking(r.pc) && TraceSideQuiet(r) && p.key == KeyFor(r.req, PhaseOf(r.pc)) && Tracks(w, r, p)
    ensures var r' := ReaderNext(w, cas, ac, r);
      Tracking(r'.pc) ==> PhaseOf(r'.pc) == PhaseOf(r.pc) && Tracks(w, r', p)
  {
    hide Genuine, Stored;
    match r.pc
    case FetchRoot(_, root) =>
      StoredIs(w, cas, RootBlob(w, p));
    case FetchFiles(_, dir, n, scratch) =>
      if n < |p.files| {
        StoredIs(w, cas, p.files[n].1);
      }
    case WriteTrace(_) =>
      GenuineFiles(p);
    case _ =>
  }

  lemma {:induction false} ReaderKeepsQuiet(w: World, s: State, r: Reader)
    requires TraceSideQuiet(r)
    ensures TraceSideQuiet(ReaderNext(w, s.cas, s.ac, r))
  {
  }

  lemma {:induction false} ReaderKeepsTracking(w: World, s: State, r: Reader)
    requires Sound(w) && Inv(w, s) && ReaderOk(w, s.log, r)
    ensures var r' := ReaderNext(w, s.cas, s.ac, r);
      Tracking(r'.pc) ==> exists p :: OnRecord(s.log, r'.req, PhaseOf(r'.pc), p) && Tracks(w, r', p)
  {
    var r' := ReaderNext(w, s.cas, s.ac, r);
    if Tracking(r.pc) {
      var p :| OnRecord(s.log, r.req, PhaseOf(r.pc), p) && Tracks(w, r, p);
      ReaderKeepsTrack(w, s.cas, s.ac, r, p);
      if Tracking(r'.pc) {
        assert OnRecord(s.log, r'.req, PhaseOf(r'.pc), p) && Tracks(w, r', p);
      }
    } else if Tracking(r'.pc) {
      var key := KeyFor(r.req, PhaseOf(r.pc));
      var p :| p in s.log && p.key == key && s.ac[key] == ResultOf(w, p);
      assert OnRecord(s.log, r'.req, PhaseOf(r'.pc), p) && Tracks(w, r', p);
    }
  }

  lemma {:induction false} MarkerKept(log: set<Publication>, r: Reader, r': Reader)
    requires MarkerHonest(log, r) && r'.req == r.req && r'.out.marker == r.out.marker
    requires r'.out.trace == r.out.trace && r'.out.makeDB == r.out.makeDB
    ensures MarkerHonest(log, r')
  {
    if r.out.marker == Some(HIT) && exists p :: OnRecord(log, r.req, TracePhase, p) && TraceOutputsOf(p, r.req, r.out) {
      var p :| OnRecord(log, r.req, TracePhase, p) && TraceOutputsOf(p, r.req, r.out);
      assert OnRecord(log, r'.req, TracePhase, p) && TraceOutputsOf(p, r'.req, r'.out);
    }
  }

  lemma {:induction false} ReaderKeepsMarker(w: World, s: State, r: Reader)
    requires ReaderOk(w, s.log, r)
    ensures MarkerHonest(s.log, ReaderNext(w, s.cas, s.ac, r))
  {
    var r' := ReaderNext(w, s.cas, s.ac, r);
    if r.pc.WriteHit? {
      var p :| OnRecord(s.log, r.req, PhaseOf(r.pc), p) && Tracks(w, r, p);
      assert OnRecord(s.log, r'.req, TracePhase, p) && TraceOutputsOf(p, r'.req, r'.out);
    } else if r'.out.marker.Some? && !r.pc.MissMarker? {
      MarkerKept(s.log, r, r');
    }
  }

  lemma {:induction false} ReaderStepOk(w: World, s: State, r: Reader)
    requires Sound(w) && Inv(w, s) && ReaderOk(w, s.log, r)
    ensures ReaderOk(w, s.log, ReaderNext(w, s.cas, s.ac, r))
  {
    ReaderKeepsTracking(w, s, r);
    ReaderKeepsQuiet(w, s, r);
    ReaderKeepsMarker(w, s, r);
  }

  lemma {:induction false} PublisherStepOk(w: World, s: State, a: Action, s': State)
    requires Inv(w, s) && PublisherStep(w, s, a, s')
    ensures Inv(w, s')
  {
    hide ReaderOk, Genuine, TreeBlob, FileHashes;
    assert s.log <= s'.log;
    forall rid | rid in s'.readers
      ensures ReaderOk(w, s'.log, s'.readers[rid])
    {
      ReaderOkMonotone(w, s.log, s'.log, s.readers[rid]);
    }
    forall key | key in s'.ac
      ensures exists p | p in s'.log :: p.key == key && s'.ac[key] == ResultOf(w, p)
    {
      if key in s.ac && s.ac[key] == s'.ac[key] {
        var p :| p in s.log && p.key == key && s.ac[key] == ResultOf(w, p);
        assert p in s'.log;
      } else {
        assert s.publishers[a.pid].pub in s'.log;
      }
    }
  }

  lemma {:induction false} NextOk(w: World, s: State, a: Action, s': State)
    requires Sound(w) && Inv(w, s) && Next(w, s, a, s')
    ensures Inv(w, s')
  {
    match a
    case Read(rid) => ReaderStepOk(w, s, s.readers[rid]);
    case EvictBlob(h) =>
    case EvictEntry(key) =>
    case _ => PublisherStepOk(w, s, a, s');
  }

  lemma {:induction false} RunOk(w: World, states: seq<State>, actions: seq<Action>, i: nat)
    requires Sound(w) && IsRun(w, states, actions) && i < |states|
    ensures Inv(w, states[i])
  {
    if i == 0 {
      InitOk(w, states[0]);
    } else {
      RunOk(w, states, actions, i - 1);
      NextOk(w, states[i - 1], actions[i - 1], states[i]);
    }
  }

  /** One recorded publish of `trace` and `makeDB` accounts for the trace-side outputs. */
  ghost predicate Explains(log: set<Publication>, req: Request, out: Outputs, trace: string, makeDB: Option<string>) {
    && TracePublication(req.srckey, req.platform, trace, makeDB) in log
    && out.trace == (if req.wantTrace then Some(trace) else None)
    && out.makeDB == (if req.wantMakeDB then Some(if makeDB.Some? then makeDB.value else "") else None)
  }

  lemma {:induction false} TraceFiles(srckey: string, platform: string, trace: string, makeDB: Option<string>)
    ensures var files := TracePublication(srckey, platform, trace, makeDB).files;
      && FileMap(files, |files|)
         == (if makeDB.Some? then map[MAKE_DB := makeDB.value, TRACE_LOG := trace] else map[TRACE_LOG := trace])
      && MAKE_DB != TRACE_LOG
  {
    var files := TracePublication(srckey, platform, trace, makeDB).files;
    assert |MAKE_DB| != |TRACE_LOG|;
    if makeDB.Some? {
      assert files == [(MAKE_DB, makeDB.value), (TRACE_LOG, trace)];
      assert FileMap(files, 1) == map[MAKE_DB := makeDB.value];
    } else {
      assert files == [(TRACE_LOG, trace)];
    }
  }

  lemma {:induction false} TraceOutputsAre(p: Publication, req: Request, out: Outputs)
    returns (trace: string, makeDB: Option<string>)
    requires Genuine(p) && p.key == TraceKey(req.srckey, req.platform) && TraceOutputsOf(p, req, out)
    ensures p == TracePublication(req.srckey, req.platform, trace, makeDB)
    ensures out.trace == (if req.wantTrace then Some(trace) else None)
    ensures out.makeDB == (if req.wantMakeDB then Some(if makeDB.Some? then makeDB.value else "") else None)
  {
    trace, makeDB :| p == TracePublication(req.srckey, req.platform, trace, makeDB);
    TraceFiles(req.srckey, req.platform, trace, makeDB);
  }

  /**
   Main result on hits.  Whenever, in any run, a reader's marker says "hit", its outputs are
   in place already and all come from one publication under the same srckey and platform.
   */
  lemma {:induction false} HitComesFromOnePublication(w: World, states: seq<State>, actions: seq<Action>, i: nat, rid: nat)
    requires Sound(w) && IsRun(w, states, actions) && i < |states|
    requires rid in states[i].readers && states[i].readers[rid].out.marker == Some(HIT)
    ensures var r := states[i].readers[rid];
      exists trace, makeDB :: Explains(states[i].log, r.req, r.out, trace, makeDB)
  {
    RunOk(w, states, actions, i);
    var r := states[i].readers[rid];
    var p :| OnRecord(states[i].log, r.req, TracePhase, p) && TraceOutputsOf(p, r.req, r.out);
    var trace, makeDB := TraceOutputsAre(p, r.req, r.out);
    assert Explains(states[i].log, r.req, r.out, trace, makeDB);
  }

  lemma BundleFile(p: Publication, req: Request)
    requires Genuine(p) && p.key == ConfigKey(req.srckey, req.platform)
    ensures BUNDLE in FileMap(p.files, |p.files|)
    ensures p == ConfigPublication(req.srckey, req.platform, FileMap(p.files, |p.files|)[BUNDLE])
  {
    var bundle :| p == ConfigPublication(req.srckey, req.platform, bundle);
    assert FileMap(p.files, 1)[BUNDLE] == bundle;
  }

  /** The reader's next step finds no entry for the bundle, or its root evicted. */
  ghost predicate MissesBundle(s: State, r: Reader) {
    match r.pc
    case Query(BundlePhase) => ConfigKey(r.req.srckey, r.req.platform) !in s.ac
    case CheckRoot(BundlePhase, root) => root !in s.cas
    case _ => false
  }

  /** A step that writes a bundle output: an empty one on a miss, and otherwise one published bundle. */
  lemma BundleStep(w: World, states: seq<State>, actions: seq<Action>, i: nat, rid: nat)
    requires Sound(w) && IsRun(w, states, actions) && i < |actions| && rid in states[i].readers
    ensures rid in states[i + 1].readers
    ensures var s, r, out := states[i], states[i].readers[rid], states[i + 1].readers[rid].out;
      || out.bundle == r.out.bundle
      || (actions[i] == Read(rid) && MissesBundle(s, r) && out.bundle == Some(""))
      || (actions[i] == Read(rid) && !MissesBundle(s, r) && out.bundle.Some?
          && ConfigPublication(r.req.srckey, r.req.platform, out.bundle.value) in s.log)
  {
    var s, r := states[i], states[i].readers[rid];
    RunOk(w, states, actions, i);
    assert Next(w, s, actions[i], states[i + 1]);
    var r' := ReaderNext(w, s.cas, s.ac, r);
    if actions[i] == Read(rid) && r.pc.FetchFiles? && r'.pc.Finished? {
      var p :| OnRecord(s.log, r.req, PhaseOf(r.pc), p) && Tracks(w, r, p);
      BundleFile(p, r.req);
      assert ConfigPublication(r.req.srckey, r.req.platform, FileMap(p.files, |p.files|)[BUNDLE]) in s.log;
    }
  }

  /** The body the bundle of some publication was written with is the reader's output, or the reader missed. */
  ghost predicate BundleExplained(states: seq<State>, actions: seq<Action>, i: nat, rid: nat)
    requires |states| == |actions| + 1 && i < |states| && rid in states[i].readers
  {
    var r := states[i].readers[rid];
    r.out.bundle.Some? ==>
      || ConfigPublication(r.req.srckey, r.req.platform, r.out.bundle.value) in states[i].log
      || (r.out.bundle == Some("") && exists k :: MissedAt(states, actions, k, i, rid))
  }

  ghost predicate MissedAt(states: seq<State>, actions: seq<Action>, k: int, i: nat, rid: nat)
    requires |states| == |actions| + 1 && i < |states|
  {
    0 <= k < i && actions[k] == Read(rid) && rid in states[k].readers && MissesBundle(states[k], states[k].readers[rid])
  }

  /**
   Main result on bundles.  The bundle output is one bundle published under the same srckey and platform,
   or it is empty because the reader found no entry for it or an evicted root.
   */
  lemma {:induction false} BundleComesFromOnePublication(w: World, states: seq<State>, actions: seq<Action>,
                                                         i: nat, rid: nat)
    requires Sound(w) && IsRun(w, states, actions) && i < |states| && rid in states[i].readers
    ensures BundleExplained(states, actions, i, rid)
  {
    if i > 0 {
      var j := i - 1;
      assert Next(w, states[j], actions[j], states[i]);
      BundleComesFromOnePublication(w, states, actions, j, rid);
      BundleStep(w, states, actions, j, rid);
      if k :| MissedAt(states, actions, k, j, rid) {
        assert MissedAt(states, actions, k, i, rid);
      }
      if actions[j] == Read(rid) && MissesBundle(states[j], states[j].readers[rid]) {
        assert MissedAt(states, actions, j, i, rid);
      }
    }
  }

  /** The history variable is truthful: each entry was put there by a publisher's cache update. */
  lemma {:induction false} LogIsHistory(w: World, states: seq<State>, actions: seq<Action>, i: nat, p: Publication)
    requires IsRun(w, states, actions) && i < |states| && p in states[i].log
    ensures exists k, pid ::
      && 0 <= k < i && actions[k] == UpdateActionResult(pid)
      && pid in states[k].publishers && states[k].publishers[pid].UpdateDue? && states[k].publishers[pid].pub == p
  {
    assert i > 0;
    assert Next(w, states[i - 1], actions[i - 1], states[i]);
    if p in states[i - 1].log {
      LogIsHistory(w, states, actions, i - 1, p);
    } else {
      assert actions[i - 1].UpdateActionResult?;
      assert states[i - 1].publishers[actions[i - 1].pid].pub == p;
    }
  }

  // ------------------------------------------------------------- completeness of a published entry

  /** The step puts blob `h` into the store. */
  ghost predicate Puts(w: World, s: State, a: Action, h: Hash) {
    match a
    case PutBlob(_, x, _) => x == h
    case PutTree(q) => q in s.publishers && s.publishers[q].Uploading? && TreeHash(w, s.publishers[q].pub) == h
    case _ => false
  }

  lemma Presence(w: World, s: State, a: Action, s': State, h: Hash)
    requires Next(w, s, a, s')
    ensures h in s'.cas <==> Puts(w, s, a, h) || (h in s.cas && a != EvictBlob(h))
  {
  }

  /** The publisher is between its FindMissing and its cache update for `p`. */
  ghost predicate Busy(s: State, pid: nat, p: Publication) {
    && pid in s.publishers
    && match s.publishers[pid]
       case Uploading(pub, _, _) => pub == p
       case UpdateDue(pub, _) => pub == p
       case _ => false
  }

  /** A blob the publication needs is stored, or on the upload list until the tree is put. */
  ghost predicate Covered(w: World, s: State, pid: nat, p: Publication, h: Hash)
    requires Busy(s, pid, p)
  {
    match s.publishers[pid]
    case Uploading(_, missing, _) => h in Needed(w, p) ==> h in s.cas || h in missing
    case _ => h in s.cas
  }

  lemma BusyStep(w: World, s: State, a: Action, s': State, pid: nat, p: Publication)
    requires Busy(s, pid, p) && Next(w, s, a, s') && a != UpdateActionResult(pid) && a != Abort(pid)
    ensures Busy(s', pid, p)
  {
  }

  /** Only an eviction of the blob ends its coverage. */
  lemma CoveredStep(w: World, s: State, a: Action, s': State, pid: nat, p: Publication, h: Hash)
    requires Busy(s, pid, p) && Busy(s', pid, p) && Covered(w, s, pid, p, h) && h in Reached(w, p)
    requires Next(w, s, a, s') && a != EvictBlob(h)
    ensures Covered(w, s', pid, p, h)
  {
    Presence(w, s, a, s', h);
  }

  ghost predicate PutWithin(w: World, states: seq<State>, actions: seq<Action>, k: nat, j: nat, h: Hash)
    requires |states| == |actions| + 1 && j <= |actions|
  {
    exists m :: k < m < j && Puts(w, states[m], actions[m], h)
  }

  /** Every eviction of `h` strictly between the two steps is followed by a put of it. */
  ghost predicate Restored(w: World, states: seq<State>, actions: seq<Action>, i: nat, j: nat, h: Hash)
    requires |states| == |actions| + 1 && j <= |actions|
  {
    forall k | i < k < j && actions[k] == EvictBlob(h) :: PutWithin(w, states, actions, k, j, h)
  }

  lemma RestoredStep(w: World, states: seq<State>, actions: seq<Action>, i: nat, j: nat, h: Hash)
    requires |states| == |actions| + 1 && i < j < |actions|
    ensures Restored(w, states, actions, i, j + 1, h)
      <==> Puts(w, states[j], actions[j], h) || (Restored(w, states, actions, i, j, h) && actions[j] != EvictBlob(h))
  {
    if Puts(w, states[j], actions[j], h) {
      forall k | i < k < j + 1 && actions[k] == EvictBlob(h)
        ensures PutWithin(w, states, actions, k, j + 1, h)
      {
        assert k < j < j + 1;
      }
    } else {
      forall k | i < k < j
        ensures PutWithin(w, states, actions, k, j + 1, h) <==> PutWithin(w, states, actions, k, j, h)
      {
      }
    }
  }

  /** Up to any point of the window: the blob is covered if its evictions were made good, and gone otherwise. */
  lemma {:induction false} RestoredIsCovered(w: World, states: seq<State>, actions: seq<Action>,
                                            i: nat, j: nat, pid: nat, p: Publication, h: Hash)
    requires IsRun(w, states, actions) && i < j <= |actions| && h in Reached(w, p)
    requires actions[i] == FindMissing(pid) && Busy(states[i + 1], pid, p)
    requires forall k | i < k < j :: actions[k] != UpdateActionResult(pid) && actions[k] != Abort(pid)
    ensures Busy(states[j], pid, p)
    ensures if Restored(w, states, actions, i, j, h) then Covered(w, states[j], pid, p, h) else h !in states[j].cas
    decreases j - i
  {
    if j == i + 1 {
      assert Next(w, states[i], actions[i], states[j]);
    } else {
      var m := j - 1;
      RestoredIsCovered(w, states, actions, i, m, pid, p, h);
      RestoredStep(w, states, actions, i, m, h);
      assert Next(w, states[m], actions[m], states[m + 1]);
      BusyStep(w, states[m], actions[m], states[m + 1], pid, p);
      Presence(w, states[m], actions[m], states[m + 1], h);
      if Covered(w, states[m], pid, p, h) && actions[m] != EvictBlob(h) {
        CoveredStep(w, states[m], actions[m], states[m + 1], pid, p, h);
      }
    }
  }

  /**
   Main result on entries.  Whatever else happens between a publisher's FindMissing and its cache
   update, the new entry is published, and every blob it reaches is in the store then if and only
   if each eviction of one of them in between was followed by a put.
   */
  lemma {:induction false} EntryIsComplete(w: World, states: seq<State>, actions: seq<Action>, i: nat, j: nat, pid: nat)
    requires IsRun(w, states, actions) && i < j < |actions|
    requires actions[i] == FindMissing(pid) && actions[j] == UpdateActionResult(pid)
    requires forall k | i < k < j :: actions[k] != UpdateActionResult(pid) && actions[k] != Abort(pid)
    ensures pid in states[i + 1].publishers && states[i + 1].publishers[pid].Uploading?
    ensures var p := states[i + 1].publishers[pid].pub;
      && p.key in states[j + 1].ac && states[j + 1].ac[p.key] == ResultOf(w, p)
      && (Reached(w, p) <= states[j + 1].cas.Keys
          <==> forall h | h in Reached(w, p) :: Restored(w, states, actions, i, j, h))
  {
    assert Next(w, states[i], actions[i], states[i + 1]);
    assert Next(w, states[j], actions[j], states[j + 1]);
    var p := states[i + 1].publishers[pid].pub;
    forall h | h in Reached(w, p)
      ensures Busy(states[j], pid, p)
      ensures h in states[j].cas <==> Restored(w, states, actions, i, j, h)
    {
      RestoredIsCovered(w, states, actions, i, j, pid, p, h);
    }
    assert RootHash(w, p) in Reached(w, p);
  }

  lemma {:induction false} FourSteps(w: World, states: seq<State>, actions: seq<Action>)
    requires |states| == 5 && |actions| == 4 && Init(w, states[0])
    requires Next(w, states[0], actions[0], states[1]) && Next(w, states[1], actions[1], states[2])
    requires Next(w, states[2], actions[2], states[3]) && Next(w, states[3], actions[3], states[4])
    ensures IsRun(w, states, actions)
  {
  }

  ghost function BlobsUpTo(w: World, p: Publication, n: nat): map<Hash, string>
    requires n <= |p.files|
  {
    if n == 0 then map[] else BlobsUpTo(w, p, n - 1)[w.digest(p.files[n - 1].1) := p.files[n - 1].1]
  }

  ghost function AllBlobs(w: World, p: Publication): map<Hash, string> {
    BlobsUpTo(w, p, |p.files|)[RootHash(w, p) := RootBlob(w, p)]
  }

  lemma {:induction false} BlobsUpToStored(w: World, p: Publication, n: nat)
    requires n <= |p.files|
    ensures Stored(w, BlobsUpTo(w, p, n))
    ensures forall i | 0 <= i < n :: w.digest(p.files[i].1) in BlobsUpTo(w, p, n)
  {
    if n > 0 {
      BlobsUpToStored(w, p, n - 1);
    }
  }

  lemma {:induction false} AllBlobsStored(w: World, p: Publication)
    ensures Stored(w, AllBlobs(w, p)) && Needed(w, p) <= AllBlobs(w, p).Keys
  {
    BlobsUpToStored(w, p, |p.files|);
  }

  lemma FirstStep(w: World, p: Publication, s: State, s': State)
    requires s.publishers == map[0 := Ready([p])] && Needed(w, p) <= s.cas.Keys
    requires s' == s.(publishers := map[0 := Uploading(p, {}, [])])
    ensures Next(w, s, FindMissing(0), s')
  {
    assert [p][1..] == [];
    assert Needed(w, p) - s.cas.Keys == {};
    assert s.publishers[0 := Uploading(p, {}, [])] == s'.publishers;
  }

  lemma LastSteps(w: World, p: Publication, s: State, s': State, s'': State)
    requires s.publishers == map[0 := Uploading(p, {}, [])] && s.ac == map[] && s.log == {}
    requires s' == s.(cas := s.cas[TreeHash(w, p) := TreeBlob(w, p)], publishers := map[0 := UpdateDue(p, [])])
    requires s'' == s'.(ac := map[p.key := ResultOf(w, p)], publishers := map[0 := Ready([])], log := {p})
    ensures Next(w, s, PutTree(0), s') && Next(w, s', UpdateActionResult(0), s'')
  {
    assert s.publishers[0 := UpdateDue(p, [])] == s'.publishers;
    assert s'.publishers[0 := Ready([])] == s''.publishers;
  }

  /**
   The condition is needed: evict the root between FindMissing and the update and the entry is
   published without it, for any publication at all.
   */
  lemma {:induction false} EvictionLeavesDanglingEntry(w: World, p: Publication)
    returns (states: seq<State>, actions: seq<Action>)
    requires Sound(w) && Genuine(p) && TreeBlob(w, p) != RootBlob(w, p)
    ensures IsRun(w, states, actions) && |actions| == 4
    ensures actions[0] == FindMissing(0) && actions[1] == EvictBlob(RootHash(w, p))
    ensures actions[3] == UpdateActionResult(0)
    ensures p.key in states[4].ac && states[4].ac[p.key].root !in states[4].cas
  {
    AllBlobsStored(w, p);
    var cas, h, t := AllBlobs(w, p), RootHash(w, p), TreeHash(w, p);
    assert h != t;
    var s0 := State(cas, map[], map[0 := Ready([p])], map[], {});
    var s1 := s0.(publishers := map[0 := Uploading(p, {}, [])]);
    var s2 := s1.(cas := cas - {h});
    var s3 := s2.(cas := s2.cas[t := TreeBlob(w, p)], publishers := map[0 := UpdateDue(p, [])]);
    var s4 := s3.(ac := map[p.key := ResultOf(w, p)], publishers := map[0 := Ready([])], log := {p});
    states := [s0, s1, s2, s3, s4];
    actions := [FindMissing(0), EvictBlob(h), PutTree(0), UpdateActionResult(0)];
    FirstStep(w, p, s0, s1);
    LastSteps(w, p, s2, s3, s4);
    FourSteps(w, states, actions);
  }
}
