/**
 cmd/trace-publish and cmd/trace-lookup as sequential programs against one mutable store:
 what a publish leaves behind, and exactly when a lookup hits, misses or fails hard.
 */
module StoreClients {
  import opened Options
  import opened Rendezvous
  import opened Sequences

  datatype Lookup = Miss | Hit(outputs: Outputs) | HardError

  /** The store after publishing `p`, if nothing else touches it. */
  ghost function AfterPublish(w: World, cas: map<Hash, string>, p: Publication): map<Hash, string> {
    (cas + AllBlobs(w, p))[TreeHash(w, p) := TreeBlob(w, p)]
  }

  ghost function Fetched(cas: map<Hash, string>, files: seq<FileEntry>): map<string, string>
    requires forall e | e in files :: e.hash in cas
  {
    if files == [] then map[]
    else
      var last := files[|files| - 1];
      Fetched(cas, files[..|files| - 1])[last.name := cas[last.hash]]
  }

  /**
   The exact verdict on an entry that publication `p` wrote: a miss when there is no entry or
   its root is gone, a hit with `p`'s own files when every blob is still there, and a hard
   error (not a miss) when the root survived but one of the files did not.
   */
  ghost predicate TraceLookupOutcome(w: World, cas: map<Hash, string>, ac: map<Key, ActionResult>,
                                     req: Request, p: Publication, r: Lookup) {
    var key := TraceKey(req.srckey, req.platform);
    && (key !in ac || ac[key].root !in cas <==> r.Miss?)
    && (Sound(w) && Stored(w, cas) && Genuine(p) && p.key == key && key in ac && ac[key] == ResultOf(w, p) ==>
         && (r.Hit? <==> Needed(w, p) <= cas.Keys)
         && (r.HardError? <==> RootHash(w, p) in cas && !(FileHashes(w, p) <= cas.Keys))
         && (r.Hit? ==> TraceOutputsOf(p, req, r.outputs) && r.outputs.marker == Some("hit\n")))
  }

  lemma UploadStep(w: World, cas0: map<Hash, string>, cas: map<Hash, string>, p: Publication, i: nat)
    requires i < |p.files| && Stored(w, cas)
    requires cas.Keys == cas0.Keys + {RootHash(w, p)} + BlobsUpTo(w, p, i).Keys
    ensures var h := w.digest(p.files[i].1);
      && (h !in Needed(w, p) - cas0.Keys ==> cas.Keys == cas0.Keys + {RootHash(w, p)} + BlobsUpTo(w, p, i + 1).Keys)
      && cas[h := p.files[i].1].Keys == cas0.Keys + {RootHash(w, p)} + BlobsUpTo(w, p, i + 1).Keys
      && Stored(w, cas[h := p.files[i].1])
  {
    var h := w.digest(p.files[i].1);
    assert h in FileHashes(w, p);
    assert BlobsUpTo(w, p, i + 1).Keys == BlobsUpTo(w, p, i).Keys + {h};
    assert cas[h := p.files[i].1].Keys == cas.Keys + {h};
  }

  lemma StoredDetermined(w: World, a: map<Hash, string>, b: map<Hash, string>)
    requires Sound(w) && Stored(w, a) && Stored(w, b) && a.Keys == b.Keys
    ensures a == b
  {
    forall h | h in a
      ensures a[h] == b[h]
    {
      assert w.digest(a[h]) == w.digest(b[h]);
    }
  }

  lemma UploadedAll(w: World, cas0: map<Hash, string>, cas: map<Hash, string>, p: Publication)
    requires Sound(w) && Stored(w, cas0) && Stored(w, cas)
    requires cas.Keys == cas0.Keys + {RootHash(w, p)} + BlobsUpTo(w, p, |p.files|).Keys
    ensures cas == cas0 + AllBlobs(w, p)
  {
    AllBlobsStored(w, p);
    StoredDetermined(w, cas, cas0 + AllBlobs(w, p));
  }

  lemma EntryDecodes(w: World, cas: map<Hash, string>, p: Publication)
    requires Sound(w) && Stored(w, cas)
    ensures RootHash(w, p) in cas ==> w.unmarshal(cas[RootHash(w, p)]) == Some(DirectoryOf(w, p))
    ensures (forall e | e in DirectoryOf(w, p).files :: e.hash in cas) <==> FileHashes(w, p) <= cas.Keys
  {
    StoredIs(w, cas, RootBlob(w, p));
    var files := DirectoryOf(w, p).files;
    forall i | 0 <= i < |p.files|
      ensures w.digest(p.files[i].1) in FileHashes(w, p) && files[i] in files
    {
    }
  }

  lemma {:induction false} FetchedIsFileMap(w: World, cas: map<Hash, string>, p: Publication, n: nat)
    requires Sound(w) && Stored(w, cas) && n <= |p.files|
    requires forall e | e in DirectoryOf(w, p).files[..n] :: e.hash in cas
    ensures Fetched(cas, DirectoryOf(w, p).files[..n]) == FileMap(p.files, n)
    ensures n == |p.files| ==> DirectoryOf(w, p).files[..n] == DirectoryOf(w, p).files
  {
    var files := DirectoryOf(w, p).files;
    if n > 0 {
      assert files[..n][..n - 1] == files[..n - 1];
      assert files[..n][n - 1] in files[..n];
      FetchedIsFileMap(w, cas, p, n - 1);
      StoredIs(w, cas, p.files[n - 1].1);
    }
  }

  function OutputsVerdict(scratch: map<string, string>, req: Request): Lookup {
    if req.wantTrace && TRACE_LOG !in scratch then HardError
    else
      Hit(Outputs(if req.wantTrace then Some(scratch[TRACE_LOG]) else None,
                  if !req.wantMakeDB then None else Some(if MAKE_DB in scratch then scratch[MAKE_DB] else ""),
                  Some(HIT), None))
  }

  ghost function FilesVerdict(cas: map<Hash, string>, files: seq<FileEntry>, req: Request): Lookup {
    if exists e :: e in files && e.hash !in cas then HardError
    else OutputsVerdict(Fetched(cas, files), req)
  }

  /** The trace side of a lookup against an unchanging store. */
  ghost function Verdict(w: World, cas: map<Hash, string>, ac: map<Key, ActionResult>, req: Request): Lookup {
    var key := TraceKey(req.srckey, req.platform);
    if key !in ac || ac[key].root !in cas then Miss
    else
      match w.unmarshal(cas[ac[key].root])
      case None => HardError
      case Some(dir) => FilesVerdict(cas, dir.files, req)
  }

  datatype BundleLookup = NoBundle | Bundle(body: string) | BundleError

  ghost function BundleOf(scratch: map<string, string>): BundleLookup {
    if BUNDLE in scratch then Bundle(scratch[BUNDLE]) else NoBundle
  }

  /** The bundle side of a lookup against an unchanging store. */
  ghost function BundleVerdict(w: World, cas: map<Hash, string>, ac: map<Key, ActionResult>, req: Request): BundleLookup {
    var key := ConfigKey(req.srckey, req.platform);
    if key !in ac || ac[key].root !in cas then NoBundle
    else
      match w.unmarshal(cas[ac[key].root])
      case None => BundleError
      case Some(dir) =>
        if exists e :: e in dir.files && e.hash !in cas then BundleError else BundleOf(Fetched(cas, dir.files))
  }

  /**
   The exact verdict on an entry that publishing `bundle` wrote: none when there is no entry or its
   root is gone, that very bundle when every blob is still there, and a hard error when the root
   survived but the file did not.
   */
  ghost predicate BundleLookupOutcome(w: World, cas: map<Hash, string>, ac: map<Key, ActionResult>,
                                      req: Request, bundle: string, r: BundleLookup) {
    var p := ConfigPublication(req.srckey, req.platform, bundle);
    && (p.key !in ac || ac[p.key].root !in cas ==> r.NoBundle?)
    && (Sound(w) && Stored(w, cas) && p.key in ac && ac[p.key] == ResultOf(w, p) ==>
         && (r == Bundle(bundle) <==> Needed(w, p) <= cas.Keys)
         && (r.NoBundle? <==> RootHash(w, p) !in cas)
         && (r.BundleError? <==> RootHash(w, p) in cas && w.digest(bundle) !in cas))
  }

  lemma OneFile(w: World, cas: map<Hash, string>, p: Publication, bundle: string)
    requires p.files == [(BUNDLE, bundle)]
    ensures FileHashes(w, p) == {w.digest(bundle)} && FileMap(p.files, 1) == map[BUNDLE := bundle]
  {
    assert p.files[0].1 == bundle;
  }

  lemma BundleVerdictIs(w: World, cas: map<Hash, string>, ac: map<Key, ActionResult>, req: Request, bundle: string)
    ensures BundleLookupOutcome(w, cas, ac, req, bundle, BundleVerdict(w, cas, ac, req))
  {
    var p := ConfigPublication(req.srckey, req.platform, bundle);
    if Sound(w) && Stored(w, cas) && p.key in ac && ac[p.key] == ResultOf(w, p) {
      EntryDecodes(w, cas, p);
      OneFile(w, cas, p, bundle);
      if FileHashes(w, p) <= cas.Keys {
        FetchedIsFileMap(w, cas, p, 1);
      }
    }
  }

  class Store {
    var cas: map<Hash, string>
    var ac: map<Key, ActionResult>

    constructor ()
      ensures cas == map[] && ac == map[]
    {
      cas, ac := map[], map[];
    }

    method FindMissing(digests: set<Hash>) returns (missing: set<Hash>)
      ensures missing == digests - cas.Keys
    {
      missing := set h | h in digests && h !in cas;
    }

    method PutBlob(h: Hash, body: string)
      modifies this`cas
      ensures cas == old(cas)[h := body]
    {
      cas := cas[h := body];
    }

    method UpdateActionResult(key: Key, result: ActionResult)
      modifies this`ac
      ensures ac == old(ac)[key := result]
    {
      ac := ac[key := result];
    }

    /** uploadTree: ask what is missing, then put the directory and the files that are. */
    method UploadTree(w: World, p: Publication)
      requires Sound(w) && Stored(w, cas)
      modifies this`cas
      ensures cas == old(cas) + AllBlobs(w, p)
    {
      hide Sound, FileHashes, AllBlobs;
      var missing := FindMissing(Needed(w, p));
      ghost var cas0 := cas;
      if RootHash(w, p) in missing {
        PutBlob(RootHash(w, p), RootBlob(w, p));
      }
      for i := 0 to |p.files|
        invariant Stored(w, cas)
        invariant cas.Keys == cas0.Keys + {RootHash(w, p)} + BlobsUpTo(w, p, i).Keys
      {
        UploadStep(w, cas0, cas, p, i);
        if w.digest(p.files[i].1) in missing {
          PutBlob(w.digest(p.files[i].1), p.files[i].1);
        }
      }
      UploadedAll(w, cas0, cas, p);
    }

    /** publish / publishConfigBundle: blobs first, then the tree, then the cache entry. */
    method Publish(w: World, p: Publication)
      requires Sound(w) && Stored(w, cas)
      modifies this
      ensures Stored(w, cas) && cas == AfterPublish(w, old(cas), p)
      ensures ac == old(ac)[p.key := ResultOf(w, p)]
    {
      AllBlobsStored(w, p);
      UploadTree(w, p);
      PutBlob(TreeHash(w, p), TreeBlob(w, p));
      UpdateActionResult(p.key, ResultOf(w, p));
    }

    /** lookup: a miss is an absent entry or an evicted root. */
    method FindRoot(key: Key) returns (root: Option<Hash>)
      ensures root == if key in ac && ac[key].root in cas then Some(ac[key].root) else None
    {
      if key !in ac {
        return None;
      }
      var missing := FindMissing({ac[key].root});
      assert ac[key].root !in cas ==> ac[key].root in missing;
      root := if missing != {} then None else Some(ac[key].root);
    }

    /** cas.MaterializeDirectory on a flat directory. */
    method MaterializeDirectory(w: World, root: Hash) returns (scratch: Option<map<string, string>>)
      ensures scratch.Some? <==>
        && root in cas && w.unmarshal(cas[root]).Some?
        && forall e | e in w.unmarshal(cas[root]).value.files :: e.hash in cas
      ensures scratch.Some? ==> scratch.value == Fetched(cas, w.unmarshal(cas[root]).value.files)
    {
      if root !in cas || w.unmarshal(cas[root]).None? {
        return None;
      }
      var files := w.unmarshal(cas[root]).value.files;
      var m: map<string, string> := map[];
      for i := 0 to |files|
        invariant forall e | e in files[..i] :: e.hash in cas
        invariant m == Fetched(cas, files[..i])
      {
        PrefixStep(files, i);
        if files[i].hash !in cas {
          return None;
        }
        m := m[files[i].name := cas[files[i].hash]];
      }
      WholePrefix(files);
      scratch := Some(m);
    }

    /** materializeConfigBundle, from the request to what is written; a missing bundle is an empty file. */
    method MaterializeConfigBundle(w: World, req: Request) returns (r: BundleLookup)
      ensures r == BundleVerdict(w, cas, ac, req)
      ensures forall bundle :: BundleLookupOutcome(w, cas, ac, req, bundle, r)
    {
      forall bundle {
        BundleVerdictIs(w, cas, ac, req, bundle);
      }
      hide Sound, Stored, FileMap, BundleLookupOutcome;
      var root := FindRoot(ConfigKey(req.srckey, req.platform));
      if root.None? {
        return NoBundle;
      }
      var scratch := MaterializeDirectory(w, root.value);
      if scratch.None? {
        return BundleError;
      }
      var files := scratch.value;
      r := if BUNDLE in files then Bundle(files[BUNDLE]) else NoBundle;
    }

    /** The trace side of trace-lookup in materialize mode, marker last. */
    method LookupTrace(w: World, req: Request) returns (r: Lookup)
      ensures r == Verdict(w, cas, ac, req)
      ensures forall p :: TraceLookupOutcome(w, cas, ac, req, p, r)
    {
      hide Sound, Stored, FileMap;
      var root := FindRoot(TraceKey(req.srckey, req.platform));
      if root.None? {
        return Miss;
      }
      var scratch := MaterializeDirectory(w, root.value);
      if scratch.None? || (req.wantTrace && TRACE_LOG !in scratch.value) {
        r := HardError;
      } else {
        var files := scratch.value;
        var trace := if req.wantTrace then Some(files[TRACE_LOG]) else None;
        var makeDB := if !req.wantMakeDB then None else Some(if MAKE_DB in files then files[MAKE_DB] else "");
        r := Hit(Outputs(trace, makeDB, Some(HIT), None));
      }
      forall p
        ensures TraceLookupOutcome(w, cas, ac, req, p, r)
      {
        if Sound(w) && Stored(w, cas) && Genuine(p) && p.key == TraceKey(req.srckey, req.platform)
          && ac[p.key] == ResultOf(w, p) {
          EntryDecodes(w, cas, p);
          if FileHashes(w, p) <= cas.Keys {
            FetchedIsFileMap(w, cas, p, |p.files|);
            GenuineFiles(p);
          }
        }
      }
    }
  }

  lemma {:induction false} BlobKeys(w: World, p: Publication, n: nat)
    requires n <= |p.files|
    ensures BlobsUpTo(w, p, n).Keys <= FileHashes(w, p)
  {
    if n > 0 {
      BlobKeys(w, p, n - 1);
    }
  }

  /** Publishing what is there already changes nothing. */
  lemma RepublishIsNoOp(w: World, cas: map<Hash, string>, p: Publication)
    requires Sound(w) && Stored(w, cas) && Reached(w, p) <= cas.Keys
    ensures AfterPublish(w, cas, p) == cas
  {
    AllBlobsStored(w, p);
    BlobKeys(w, p, |p.files|);
    StoredDetermined(w, AfterPublish(w, cas, p), cas);
  }

  // ------------------------------------------------------------- one client among many

  /** Consecutive steps of the interleaved model, from any state. */
  ghost predicate Steps(w: World, states: seq<State>, actions: seq<Action>) {
    |states| == |actions| + 1 && forall i | 0 <= i < |actions| :: Next(w, states[i], actions[i], states[i + 1])
  }

  lemma StepFirst(w: World, s: State, a: Action, states: seq<State>, actions: seq<Action>)
    requires Steps(w, states, actions) && Next(w, s, a, states[0])
    ensures Steps(w, [s] + states, [a] + actions)
    ensures ([s] + states)[|actions| + 1] == states[|actions|]
  {
    forall i | 0 <= i < |actions| + 1
      ensures Next(w, ([s] + states)[i], ([a] + actions)[i], ([s] + states)[i + 1])
    {
      assert i > 0 ==> Next(w, states[i - 1], actions[i - 1], states[i]);
    }
  }

  /** The content a publication uploads under a digest. */
  lemma BodyOf(w: World, p: Publication, h: Hash) returns (body: string)
    requires h in Needed(w, p)
    ensures IsBlobOf(w, p, h, body)
  {
    if h == RootHash(w, p) {
      body := RootBlob(w, p);
    } else {
      var i :| 0 <= i < |p.files| && w.digest(p.files[i].1) == h;
      body := p.files[i].1;
    }
  }

  /** The missing blobs are put one by one, the root first. */
  lemma {:induction false} UploadSteps(w: World, s: State, pid: nat, p: Publication, missing: set<Hash>,
                                      rest: seq<Publication>)
    returns (states: seq<State>, actions: seq<Action>, cas: map<Hash, string>)
    requires Stored(w, s.cas) && missing <= Needed(w, p)
    requires pid in s.publishers && s.publishers[pid] == Uploading(p, missing, rest)
    ensures Steps(w, states, actions) && states[0] == s
    ensures Stored(w, cas) && cas.Keys == s.cas.Keys + missing
    ensures states[|actions|] == s.(cas := cas, publishers := s.publishers[pid := Uploading(p, {}, rest)])
    decreases missing
  {
    hide Sound, FileHashes, RootBlob, ReaderNext;
    if missing == {} {
      states, actions, cas := [s], [], s.cas;
    } else {
      var h :| h in missing && (RootHash(w, p) in missing ==> h == RootHash(w, p));
      var body := BodyOf(w, p, h);
      var next := Uploading(p, missing - {h}, rest);
      var s' := s.(cas := s.cas[h := body], publishers := s.publishers[pid := next]);
      assert Next(w, s, PutBlob(pid, h, body), s');
      states, actions, cas := UploadSteps(w, s', pid, p, missing - {h}, rest);
      StepFirst(w, s, PutBlob(pid, h, body), states, actions);
      assert s'.publishers[pid := Uploading(p, {}, rest)] == s.publishers[pid := Uploading(p, {}, rest)];
      states, actions := [s] + states, [PutBlob(pid, h, body)] + actions;
    }
  }

  /** The store after the two last steps of a publisher. */
  function Published(w: World, s: State, pid: nat, p: Publication, rest: seq<Publication>): State {
    s.(cas := s.cas[TreeHash(w, p) := TreeBlob(w, p)], ac := s.ac[p.key := ResultOf(w, p)],
       publishers := s.publishers[pid := Ready(rest)], log := s.log + {p})
  }

  lemma FinishSteps(w: World, s: State, pid: nat, p: Publication, rest: seq<Publication>)
    returns (states: seq<State>, actions: seq<Action>)
    requires pid in s.publishers && s.publishers[pid] == Uploading(p, {}, rest)
    ensures Steps(w, states, actions) && states[0] == s && states[|actions|] == Published(w, s, pid, p, rest)
  {
    var s' := s.(cas := s.cas[TreeHash(w, p) := TreeBlob(w, p)], publishers := s.publishers[pid := UpdateDue(p, rest)]);
    var s'' := Published(w, s, pid, p, rest);
    assert s'.publishers[pid := Ready(rest)] == s''.publishers;
    assert Next(w, s, PutTree(pid), s') && Next(w, s', UpdateActionResult(pid), s'');
    states, actions := [s, s', s''], [PutTree(pid), UpdateActionResult(pid)];
  }

  lemma StepsAppend(w: World, a: seq<State>, x: seq<Action>, b: seq<State>, y: seq<Action>)
    requires Steps(w, a, x) && Steps(w, b, y) && a[|x|] == b[0]
    ensures Steps(w, a + b[1..], x + y) && (a + b[1..])[|x + y|] == b[|y|] && (a + b[1..])[0] == a[0]
  {
    var states, actions := a + b[1..], x + y;
    forall i | 0 <= i < |actions|
      ensures Next(w, states[i], actions[i], states[i + 1])
    {
      if i >= |x| {
        assert Next(w, b[i - |x|], y[i - |x|], b[i - |x| + 1]);
      }
    }
  }

  lemma UploadedIs(w: World, cas0: map<Hash, string>, cas: map<Hash, string>, p: Publication)
    requires Sound(w) && Stored(w, cas0) && Stored(w, cas) && cas.Keys == cas0.Keys + (Needed(w, p) - cas0.Keys)
    ensures cas == cas0 + AllBlobs(w, p)
  {
    AllBlobsStored(w, p);
    BlobKeys(w, p, |p.files|);
    StoredDetermined(w, cas, cas0 + AllBlobs(w, p));
  }

  /** What Publish leaves behind is what a publisher's own steps of the interleaved model lead to, undisturbed. */
  lemma PublishIsARun(w: World, s: State, pid: nat, p: Publication, rest: seq<Publication>)
    returns (states: seq<State>, actions: seq<Action>)
    requires Sound(w) && Stored(w, s.cas) && pid in s.publishers && s.publishers[pid] == Ready([p] + rest)
    ensures Steps(w, states, actions) && states[0] == s
    ensures var last := states[|actions|];
      && last.cas == AfterPublish(w, s.cas, p) && last.ac == s.ac[p.key := ResultOf(w, p)]
      && last.publishers == s.publishers[pid := Ready(rest)] && last.log == s.log + {p} && last.readers == s.readers
  {
    var missing := Needed(w, p) - s.cas.Keys;
    var s1 := s.(publishers := s.publishers[pid := Uploading(p, missing, rest)]);
    assert ([p] + rest)[1..] == rest;
    assert Next(w, s, FindMissing(pid), s1);
    var states1, actions1, cas := UploadSteps(w, s1, pid, p, missing, rest);
    UploadedIs(w, s.cas, cas, p);
    var s2 := states1[|actions1|];
    var states2, actions2 := FinishSteps(w, s2, pid, p, rest);
    StepsAppend(w, states1, actions1, states2, actions2);
    StepFirst(w, s, FindMissing(pid), states1 + states2[1..], actions1 + actions2);
    states, actions := [s] + (states1 + states2[1..]), [FindMissing(pid)] + (actions1 + actions2);
    assert Published(w, s2, pid, p, rest).publishers == s.publishers[pid := Ready(rest)];
  }

  /** A reader of the interleaved model, left alone for `n` steps. */
  function After(w: World, cas: map<Hash, string>, ac: map<Key, ActionResult>, r: Reader, n: nat): Reader
    decreases n
  {
    if n == 0 then r else After(w, cas, ac, ReaderNext(w, cas, ac, r), n - 1)
  }

  /** The files are fetched in order; a missing one is a hard error. */
  lemma {:induction false} FetchAlone(w: World, cas: map<Hash, string>, ac: map<Key, ActionResult>, r: Reader,
                                     phase: Phase, files: seq<FileEntry>, k: nat)
    returns (n: nat)
    requires k <= |files| && forall e | e in files[..k] :: e.hash in cas
    requires r.pc == FetchFiles(phase, Directory(files), k, Fetched(cas, files[..k]))
    ensures var x := After(w, cas, ac, r, n);
      && (if forall e | e in files :: e.hash in cas then x == Materialized(r, phase, Fetched(cas, files))
          else x == r.(pc := Failed))
    decreases |files| - k
  {
    if k == |files| || files[k].hash !in cas {
      n := 1;
      if k == |files| {
        WholePrefix(files);
      } else {
        assert files[k] in files;
      }
      assert After(w, cas, ac, ReaderNext(w, cas, ac, r), 0) == ReaderNext(w, cas, ac, r);
    } else {
      PrefixStep(files, k);
      n := FetchAlone(w, cas, ac, ReaderNext(w, cas, ac, r), phase, files, k + 1);
      n := n + 1;
    }
  }

  lemma AfterOne(w: World, cas: map<Hash, string>, ac: map<Key, ActionResult>, r: Reader, n: nat)
    ensures After(w, cas, ac, r, n + 1) == After(w, cas, ac, ReaderNext(w, cas, ac, r), n)
  {
  }

  lemma {:induction false} AfterSum(w: World, cas: map<Hash, string>, ac: map<Key, ActionResult>, r: Reader, m: nat, n: nat)
    ensures After(w, cas, ac, r, m + n) == After(w, cas, ac, After(w, cas, ac, r, m), n)
    decreases m
  {
    if m > 0 {
      AfterSum(w, cas, ac, ReaderNext(w, cas, ac, r), m - 1, n);
    }
  }

  const NOTHING := Outputs(None, None, None, None)

  /** What the trace side leaves on disk. */
  function TraceOutputs(req: Request, verdict: Lookup): Outputs {
    match verdict
    case Hit(outputs) => outputs
    case Miss =>
      Outputs(if req.wantTrace then Some("") else None, if req.wantMakeDB then Some("") else None, Some("miss\n"), None)
    case HardError => NOTHING
  }

  /** A reader that has come to this verdict: it failed, or its marker and the files of the trace side say so. */
  ghost predicate Settled(x: Reader, req: Request, verdict: Lookup) {
    x.req == req
    && if verdict.HardError? then x.pc.Failed? else x.pc == AfterMarker(req) && x.out == TraceOutputs(req, verdict)
  }

  lemma WriteAlone(w: World, cas: map<Hash, string>, ac: map<Key, ActionResult>, r: Reader, scratch: map<string, string>)
    returns (n: nat)
    requires r.pc == WriteTrace(scratch) && r.out == NOTHING
    ensures Settled(After(w, cas, ac, r, n), r.req, OutputsVerdict(scratch, r.req))
  {
    var r1 := ReaderNext(w, cas, ac, r);
    AfterOne(w, cas, ac, r, 0);
    if r1.pc.Failed? {
      n := 1;
    } else {
      var r2 := ReaderNext(w, cas, ac, r1);
      AfterOne(w, cas, ac, r, 2);
      AfterOne(w, cas, ac, r1, 1);
      AfterOne(w, cas, ac, r2, 0);
      n := 3;
    }
  }

  lemma MissAlone(w: World, cas: map<Hash, string>, ac: map<Key, ActionResult>, r: Reader)
    requires r.pc == MissTrace && r.out == NOTHING
    ensures Settled(After(w, cas, ac, r, 3), r.req, Miss)
  {
    var r1 := ReaderNext(w, cas, ac, r);
    var r2 := ReaderNext(w, cas, ac, r1);
    AfterOne(w, cas, ac, r, 2);
    AfterOne(w, cas, ac, r1, 1);
    AfterOne(w, cas, ac, r2, 0);
  }

  lemma FilesAlone(w: World, cas: map<Hash, string>, ac: map<Key, ActionResult>, r: Reader, files: seq<FileEntry>)
    returns (n: nat)
    requires r.pc == FetchFiles(TracePhase, Directory(files), 0, map[]) && r.out == NOTHING
    ensures Settled(After(w, cas, ac, r, n), r.req, FilesVerdict(cas, files, r.req))
  {
    assert files[..0] == [];
    n := FetchAlone(w, cas, ac, r, TracePhase, files, 0);
    var x := After(w, cas, ac, r, n);
    if forall e | e in files :: e.hash in cas {
      var m := WriteAlone(w, cas, ac, x, Fetched(cas, files));
      AfterSum(w, cas, ac, r, n, m);
      n := n + m;
    }
  }

  /** Left alone, a reader of the interleaved model comes to the verdict of the sequential lookup. */
  lemma ReaderAlone(w: World, cas: map<Hash, string>, ac: map<Key, ActionResult>, req: Request) returns (n: nat)
    ensures Settled(After(w, cas, ac, Reader(req, Query(TracePhase), NOTHING), n), req, Verdict(w, cas, ac, req))
  {
    var r := Reader(req, Query(TracePhase), NOTHING);
    var r1 := ReaderNext(w, cas, ac, r);
    var key := TraceKey(req.srckey, req.platform);
    AfterOne(w, cas, ac, r, 3);
    if key !in ac {
      MissAlone(w, cas, ac, r1);
      n := 4;
    } else {
      var r2 := ReaderNext(w, cas, ac, r1);
      if ac[key].root !in cas {
        MissAlone(w, cas, ac, r2);
        AfterOne(w, cas, ac, r, 4);
        AfterOne(w, cas, ac, r1, 3);
        n := 5;
      } else {
        var r3 := ReaderNext(w, cas, ac, r2);
        AfterSum(w, cas, ac, r, 3, 0);
        AfterOne(w, cas, ac, r, 2);
        AfterOne(w, cas, ac, r1, 1);
        AfterOne(w, cas, ac, r2, 0);
        n := 3;
        if r3.pc.FetchFiles? {
          var m := FilesAlone(w, cas, ac, r3, r3.pc.dir.files);
          AfterSum(w, cas, ac, r, 3, m);
          n := 3 + m;
        }
      }
    }
  }

  /** A reader that has come to the end of the bundle side, from outputs `out`. */
  ghost predicate BundleSettled(x: Reader, out: Outputs, verdict: BundleLookup) {
    match verdict
    case NoBundle => x.pc.Finished? && x.out == out.(bundle := Some(""))
    case Bundle(body) => x.pc.Finished? && x.out == out.(bundle := Some(body))
    case BundleError => x.pc.Failed? && x.out == out
  }

  lemma BundleFilesAlone(w: World, cas: map<Hash, string>, ac: map<Key, ActionResult>, r: Reader, files: seq<FileEntry>)
    returns (n: nat)
    requires r.pc == FetchFiles(BundlePhase, Directory(files), 0, map[])
    ensures BundleSettled(After(w, cas, ac, r, n), r.out,
      if exists e :: e in files && e.hash !in cas then BundleError else BundleOf(Fetched(cas, files)))
  {
    assert files[..0] == [];
    n := FetchAlone(w, cas, ac, r, BundlePhase, files, 0);
  }

  /** After its marker, a reader left alone comes to the verdict on the bundle. */
  lemma BundleAlone(w: World, cas: map<Hash, string>, ac: map<Key, ActionResult>, r: Reader) returns (n: nat)
    requires r.pc == Query(BundlePhase)
    ensures BundleSettled(After(w, cas, ac, r, n), r.out, BundleVerdict(w, cas, ac, r.req))
  {
    var r1 := ReaderNext(w, cas, ac, r);
    var key := ConfigKey(r.req.srckey, r.req.platform);
    AfterOne(w, cas, ac, r, 0);
    if key !in ac {
      n := 1;
    } else {
      var r2 := ReaderNext(w, cas, ac, r1);
      AfterOne(w, cas, ac, r, 1);
      AfterOne(w, cas, ac, r1, 0);
      if ac[key].root !in cas {
        n := 2;
      } else {
        var r3 := ReaderNext(w, cas, ac, r2);
        AfterOne(w, cas, ac, r, 2);
        AfterOne(w, cas, ac, r1, 1);
        AfterOne(w, cas, ac, r2, 0);
        n := 3;
        if r3.pc.FetchFiles? {
          var m := BundleFilesAlone(w, cas, ac, r3, r3.pc.dir.files);
          AfterSum(w, cas, ac, r, 3, m);
          n := 3 + m;
        }
      }
    }
  }

  /** A whole lookup: a hard error, or the outputs of the trace side and then, if it was asked for, the bundle. */
  ghost predicate LookupEnds(x: Reader, req: Request, trace: Lookup, bundle: BundleLookup) {
    if trace.HardError? then x.pc.Failed?
    else if req.wantBundle then BundleSettled(x, TraceOutputs(req, trace), bundle)
    else x.pc.Finished? && x.out == TraceOutputs(req, trace)
  }

  /** Left alone from the start, a reader comes to both verdicts. */
  lemma LookupAlone(w: World, cas: map<Hash, string>, ac: map<Key, ActionResult>, req: Request) returns (n: nat)
    ensures LookupEnds(After(w, cas, ac, Reader(req, Query(TracePhase), NOTHING), n), req,
                       Verdict(w, cas, ac, req), BundleVerdict(w, cas, ac, req))
  {
    var r := Reader(req, Query(TracePhase), NOTHING);
    n := ReaderAlone(w, cas, ac, req);
    if !Verdict(w, cas, ac, req).HardError? && req.wantBundle {
      var m := BundleAlone(w, cas, ac, After(w, cas, ac, r, n));
      AfterSum(w, cas, ac, r, n, m);
      n := n + m;
    }
  }

  // ------------------------------------------------------------- round trip

  /** Publish, then look up under the same srckey and platform: exactly what was published. */
  method RoundTrip(w: World, store: Store, srckey: string, platform: string, trace: string, makeDB: Option<string>,
                   req: Request) returns (r: Lookup)
    requires Sound(w) && Stored(w, store.cas)
    requires req.srckey == srckey && req.platform == platform
    modifies store
    ensures r.Hit? && Explains({TracePublication(srckey, platform, trace, makeDB)}, req, r.outputs, trace, makeDB)
  {
    var p := TracePublication(srckey, platform, trace, makeDB);
    assert Genuine(p);
    store.Publish(w, p);
    AllBlobsStored(w, p);
    r := store.LookupTrace(w, req);
    assert TraceLookupOutcome(w, store.cas, store.ac, req, p, r);
    TraceFiles(srckey, platform, trace, makeDB);
  }

  /** And the same for a bundle. */
  method BundleRoundTrip(w: World, store: Store, bundle: string, req: Request) returns (r: BundleLookup)
    requires Sound(w) && Stored(w, store.cas)
    modifies store
    ensures r == Bundle(bundle)
  {
    var p := ConfigPublication(req.srckey, req.platform, bundle);
    store.Publish(w, p);
    AllBlobsStored(w, p);
    r := store.MaterializeConfigBundle(w, req);
    assert BundleLookupOutcome(w, store.cas, store.ac, req, bundle, r);
  }
}
