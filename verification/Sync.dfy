/** `hydrabrain/sync.py`: incremental ingestion of files behind a manifest of hashes. */
module Sync {
  import opened Results
  import opened Sequences

  /** White space in the sense of Python's `str.strip`. */
  predicate PySpace(c: char) {
    || '\t' <= c <= '\r' || '\U{1C}' <= c <= '\U{20}' || c == '\U{85}' || c == '\U{A0}' || c == '\U{1680}'
    || '\U{2000}' <= c <= '\U{200A}' || c == '\U{2028}' || c == '\U{2029}' || c == '\U{202F}' || c == '\U{205F}'
    || c == '\U{3000}'
  }

  predicate Blank(text: string) {
    forall c | c in text :: PySpace(c)
  }

  /** One memory in the store, tagged with the file it came from. */
  datatype Memory = Memory(path: string, text: string)

  type Hashes = map<string, string>

  /** The manifest on disk; an unreadable one counts as empty. */
  datatype ManifestFile = Missing | Corrupt | Saved(hashes: Hashes)

  datatype Action = Empty | Unchanged | WouldIngest | Ingested | Error

  /** One invocation: which files it lists, what they contain (unreadable ones are absent),
      which additions the service rejects, and the flags. */
  datatype Request = Request(files: seq<string>, contents: map<string, string>, rejected: set<string>,
                             force: bool, dryRun: bool)

  datatype SyncResult = SyncResult(ingested: nat, skipped: nat, failed: nat, details: seq<(string, Action)>)

  function Known(file: ManifestFile, force: bool): Hashes {
    if file.Saved? && !force then file.hashes else map[]
  }

  /** What happens to one file, given the hashes known when it is reached. */
  function ActionFor(hash: string -> string, req: Request, known: Hashes, path: string): Action {
    if path !in req.contents then Error
    else if Blank(req.contents[path]) then Empty
    else if path in known && known[path] == hash(req.contents[path]) && !req.force then Unchanged
    else if req.dryRun then WouldIngest
    else if path in req.rejected then Error
    else Ingested
  }

  function Hashed(hash: string -> string, req: Request, known: Hashes, files: seq<string>): Hashes {
    if files == [] then known
    else
      var before, path := Hashed(hash, req, known, files[..|files| - 1]), files[|files| - 1];
      if ActionFor(hash, req, known, path) == Ingested && path in req.contents
      then before[path := hash(req.contents[path])] else before
  }

  function Stored(hash: string -> string, req: Request, known: Hashes, log: seq<Memory>, files: seq<string>): seq<Memory> {
    if files == [] then log
    else
      var before, path := Stored(hash, req, known, log, files[..|files| - 1]), files[|files| - 1];
      if ActionFor(hash, req, known, path) == Ingested && path in req.contents
      then before + [Memory(path, req.contents[path])] else before
  }

  /** A failure is listed twice: once where it is caught, once with the other actions. */
  function Details(path: string, a: Action): seq<(string, Action)> {
    match a
    case Empty => []
    case Unchanged => []
    case Error => [(path, Error), (path, Error)]
    case _ => [(path, a)]
  }

  function Report(hash: string -> string, req: Request, known: Hashes, files: seq<string>): SyncResult {
    if files == [] then SyncResult(0, 0, 0, [])
    else
      var r, path := Report(hash, req, known, files[..|files| - 1]), files[|files| - 1];
      var a := ActionFor(hash, req, known, path);
      Counted(r, path, a)
  }

  function Counted(r: SyncResult, path: string, a: Action): SyncResult {
    SyncResult(r.ingested + (if a == Ingested || a == WouldIngest then 1 else 0),
               r.skipped + (if a == Empty || a == Unchanged then 1 else 0),
               r.failed + (if a == Error then 1 else 0),
               r.details + Details(path, a))
  }

  datatype World = World(manifest: ManifestFile, log: seq<Memory>)

  function After(hash: string -> string, w: World, req: Request): World {
    if req.dryRun then w
    else
      var known := Known(w.manifest, req.force);
      World(Saved(Hashed(hash, req, known, req.files)), Stored(hash, req, known, w.log, req.files))
  }

  function Outcome(hash: string -> string, w: World, req: Request): SyncResult {
    Report(hash, req, Known(w.manifest, req.force), req.files)
  }

  class Syncer {
    const hash: string -> string
    var world: World

    constructor (hash: string -> string)
      ensures this.hash == hash && world == World(Missing, [])
    {
      this.hash := hash;
      world := World(Missing, []);
    }

    /** `sync`, over the sorted, de-duplicated file list. */
    method Sync(req: Request) returns (result: SyncResult)
      requires Distinct(req.files)
      modifies this`world
      ensures world == After(hash, old(world), req)
      ensures result == Outcome(hash, old(world), req)
    {
      var manifest: Hashes := map[];
      if world.manifest.Saved? && !req.force {
        manifest := world.manifest.hashes;
      }
      ghost var known := manifest;
      var log := world.log;
      result := SyncResult(0, 0, 0, []);
      assert req.files[..0] == [];
      for i := 0 to |req.files|
        invariant world == old(world)
        invariant manifest == Hashed(hash, req, known, req.files[..i])
        invariant log == if req.dryRun then world.log else Stored(hash, req, known, world.log, req.files[..i])
        invariant result == Report(hash, req, known, req.files[..i])
      {
        var key := req.files[i];
        FileStep(hash, req, known, world.log, i);
        var action;
        manifest, log, action := SyncFile(req, key, manifest, log);
        result := Counted(result, key, action);
      }
      assert req.files[..|req.files|] == req.files;
      if !req.dryRun {
        world := World(Saved(manifest), log);
      }
    }

    /** The guarded part of the loop: what happens to one file. */
    method SyncFile(req: Request, key: string, manifest: Hashes, log: seq<Memory>)
        returns (manifest': Hashes, log': seq<Memory>, action: Action)
      ensures action == ActionFor(hash, req, manifest, key)
      ensures manifest' == if action == Ingested && key in req.contents then manifest[key := hash(req.contents[key])] else manifest
      ensures log' == if action == Ingested && key in req.contents then log + [Memory(key, req.contents[key])] else log
    {
      manifest', log', action := manifest, log, Error;
      if key in req.contents {
        var text := req.contents[key];
        if Blank(text) {
          action := Empty;
        } else if key in manifest && manifest[key] == hash(text) && !req.force {
          action := Unchanged;
        } else if req.dryRun {
          action := WouldIngest;
        } else if key !in req.rejected {
          log' := log + [Memory(key, text)];
          manifest' := manifest[key := hash(text)];
          action := Ingested;
        }
      }
    }
  }

  /** One turn of the loop. */
  lemma FileStep(hash: string -> string, req: Request, known: Hashes, log: seq<Memory>, i: nat)
    requires Distinct(req.files) && i < |req.files|
    ensures var front, upTo, key := req.files[..i], req.files[..i + 1], req.files[i];
            var manifest := Hashed(hash, req, known, front);
            var action := ActionFor(hash, req, manifest, key);
            var stores := action == Ingested && key in req.contents;
            && Hashed(hash, req, known, upTo) == (if stores then manifest[key := hash(req.contents[key])] else manifest)
            && Stored(hash, req, known, log, upTo)
               == Stored(hash, req, known, log, front) + (if stores then [Memory(key, req.contents[key])] else [])
            && Report(hash, req, known, upTo) == Counted(Report(hash, req, known, front), key, action)
            && (req.dryRun ==> !stores)
  {
    assert req.files[..i + 1][..i] == req.files[..i];
    HashedElsewhere(hash, req, known, req.files[..i], req.files[i]);
  }

  /** A file not yet reached still has the hash it started with. */
  lemma {:induction false} HashedElsewhere(hash: string -> string, req: Request, known: Hashes, files: seq<string>, path: string)
    requires path !in files
    ensures path in Hashed(hash, req, known, files) <==> path in known
    ensures path in known ==> Hashed(hash, req, known, files)[path] == known[path]
  {
    if files != [] {
      HashedElsewhere(hash, req, known, files[..|files| - 1], path);
    }
  }

  // ---------------------------------------------------------------- the store

  function Latest(log: seq<Memory>, path: string): Option<string> {
    if log == [] then None
    else if log[|log| - 1].path == path then Some(log[|log| - 1].text)
    else Latest(log[..|log| - 1], path)
  }

  lemma LatestStep(log: seq<Memory>, m: Memory, path: string)
    ensures Latest(log + [m], path) == if m.path == path then Some(m.text) else Latest(log, path)
  {
    assert (log + [m])[..|log|] == log;
  }

  /** Every hash known belongs to the latest stored text of its file. */
  ghost predicate Agrees(hash: string -> string, known: Hashes, log: seq<Memory>) {
    forall p | p in known :: Latest(log, p).Some? && hash(Latest(log, p).value) == known[p]
  }

  ghost predicate Consistent(hash: string -> string, w: World) {
    w.manifest.Saved? ==> Agrees(hash, w.manifest.hashes, w.log)
  }

  ghost predicate Injective(hash: string -> string) {
    forall a, b :: hash(a) == hash(b) ==> a == b
  }

  /** The text a run leaves for `path`. */
  lemma {:induction false} LatestAfter(hash: string -> string, req: Request, known: Hashes, log: seq<Memory>,
                                       files: seq<string>, path: string)
    ensures Latest(Stored(hash, req, known, log, files), path) ==
            if path in files && path in req.contents && ActionFor(hash, req, known, path) == Ingested
            then Some(req.contents[path]) else Latest(log, path)
  {
    if files != [] {
      var m := |files| - 1;
      LatestAfter(hash, req, known, log, files[..m], path);
      assert files == files[..m] + [files[m]];
      var before := Stored(hash, req, known, log, files[..m]);
      if files[m] in req.contents {
        LatestStep(before, Memory(files[m], req.contents[files[m]]), path);
      }
    }
  }

  lemma {:induction false} HashedAfter(hash: string -> string, req: Request, known: Hashes, files: seq<string>, path: string)
    ensures var h := Hashed(hash, req, known, files);
            if path in files && path in req.contents && ActionFor(hash, req, known, path) == Ingested
            then path in h && h[path] == hash(req.contents[path])
            else (path in h <==> path in known) && (path in known ==> h[path] == known[path])
  {
    if files != [] {
      var m := |files| - 1;
      HashedAfter(hash, req, known, files[..m], path);
      assert files == files[..m] + [files[m]];
    }
  }

  /** No run, with whatever failures, flags and edits, breaks the agreement. */
  lemma SyncKeepsConsistent(hash: string -> string, w: World, req: Request)
    requires Consistent(hash, w)
    ensures Consistent(hash, After(hash, w, req))
  {
    var known := Known(w.manifest, req.force);
    if !req.dryRun {
      forall p | p in Hashed(hash, req, known, req.files)
        ensures Latest(Stored(hash, req, known, w.log, req.files), p).Some?
        ensures hash(Latest(Stored(hash, req, known, w.log, req.files), p).value) == Hashed(hash, req, known, req.files)[p]
      {
        LatestAfter(hash, req, known, w.log, req.files, p);
        HashedAfter(hash, req, known, req.files, p);
      }
    }
  }

  function History(hash: string -> string, reqs: seq<Request>): World {
    if reqs == [] then World(Missing, []) else After(hash, History(hash, reqs[..|reqs| - 1]), reqs[|reqs| - 1])
  }

  lemma {:induction false} HistoryConsistent(hash: string -> string, reqs: seq<Request>)
    ensures Consistent(hash, History(hash, reqs))
  {
    if reqs != [] {
      HistoryConsistent(hash, reqs[..|reqs| - 1]);
      SyncKeepsConsistent(hash, History(hash, reqs[..|reqs| - 1]), reqs[|reqs| - 1]);
    }
  }

  // ---------------------------------------------------------------- promises

  /** After any history of edits and runs, an incremental run leaves for every file the
      same latest text as a full re-ingest would. */
  lemma IncrementalRefinesFull(hash: string -> string, reqs: seq<Request>, req: Request, path: string)
    requires Injective(hash) && !req.dryRun
    ensures var w := History(hash, reqs);
            Latest(After(hash, w, req.(force := false)).log, path) == Latest(After(hash, w, req.(force := true)).log, path)
  {
    HistoryConsistent(hash, reqs);
    var w := History(hash, reqs);
    var inc, full := req.(force := false), req.(force := true);
    LatestAfter(hash, inc, Known(w.manifest, false), w.log, req.files, path);
    LatestAfter(hash, full, Known(w.manifest, true), w.log, req.files, path);
    if path in req.contents && ActionFor(hash, inc, Known(w.manifest, false), path) == Unchanged {
      assert hash(Latest(w.log, path).value) == hash(req.contents[path]);
    }
  }

  /** After any history, every listed, non-blank file whose addition was not rejected is
      stored as it is. */
  lemma StoreFollowsFiles(hash: string -> string, reqs: seq<Request>, req: Request, path: string)
    requires Injective(hash) && !req.dryRun
    requires path in req.files && path in req.contents && !Blank(req.contents[path]) && path !in req.rejected
    ensures Latest(After(hash, History(hash, reqs), req).log, path) == Some(req.contents[path])
  {
    HistoryConsistent(hash, reqs);
    var w := History(hash, reqs);
    var known := Known(w.manifest, req.force);
    LatestAfter(hash, req, known, w.log, req.files, path);
    if ActionFor(hash, req, known, path) == Unchanged {
      assert hash(Latest(w.log, path).value) == hash(req.contents[path]);
    }
  }

  /** Every file is counted once. */
  lemma {:induction false} CountsAddUp(hash: string -> string, req: Request, known: Hashes, files: seq<string>)
    ensures var r := Report(hash, req, known, files); r.ingested + r.skipped + r.failed == |files|
  {
    if files != [] {
      CountsAddUp(hash, req, known, files[..|files| - 1]);
    }
  }

  lemma {:induction false} NoneFailed(hash: string -> string, req: Request, known: Hashes, files: seq<string>)
    ensures Report(hash, req, known, files).failed == 0 <==>
            forall p | p in files :: ActionFor(hash, req, known, p) != Error
  {
    if files != [] {
      var m := |files| - 1;
      NoneFailed(hash, req, known, files[..m]);
      assert forall p :: p in files <==> p in files[..m] || p == files[m];
    }
  }

  lemma {:induction false} NoneIngested(hash: string -> string, req: Request, known: Hashes, files: seq<string>)
    requires forall p | p in files :: ActionFor(hash, req, known, p) == Unchanged || ActionFor(hash, req, known, p) == Empty
    ensures Report(hash, req, known, files).ingested == 0 && Report(hash, req, known, files).failed == 0
  {
    if files != [] {
      var m := |files| - 1;
      assert files[m] in files;
      NoneIngested(hash, req, known, files[..m]);
    }
  }

  lemma {:induction false} NothingStored(hash: string -> string, req: Request, known: Hashes, log: seq<Memory>, files: seq<string>)
    requires forall p | p in files :: ActionFor(hash, req, known, p) != Ingested
    ensures Stored(hash, req, known, log, files) == log && Hashed(hash, req, known, files) == known
  {
    if files != [] {
      var m := |files| - 1;
      assert files[m] in files;
      NothingStored(hash, req, known, log, files[..m]);
    }
  }

  /** After a run without failures, running again over the same files ingests nothing and
      changes nothing. */
  lemma SecondRunIdle(hash: string -> string, w: World, req: Request)
    requires !req.dryRun && Outcome(hash, w, req).failed == 0
    ensures var again := req.(force := false);
            var w1 := After(hash, w, req);
            Outcome(hash, w1, again).ingested == 0 && Outcome(hash, w1, again).failed == 0 && After(hash, w1, again) == w1
  {
    var again, w1 := req.(force := false), After(hash, w, req);
    var known, known1 := Known(w.manifest, req.force), Known(w1.manifest, false);
    NoneFailed(hash, req, known, req.files);
    forall p | p in req.files
      ensures ActionFor(hash, again, known1, p) == Unchanged || ActionFor(hash, again, known1, p) == Empty
    {
      HashedAfter(hash, req, known, req.files, p);
      assert ActionFor(hash, req, known, p) != Error;
    }
    NoneIngested(hash, again, known1, req.files);
    NothingStored(hash, again, known1, w1.log, req.files);
  }

  /** The paths a run ingests or would ingest, in order. */
  function Chosen(hash: string -> string, req: Request, known: Hashes, files: seq<string>, a: Action): seq<string> {
    if files == [] then []
    else
      var front, last := files[..|files| - 1], files[|files| - 1];
      Chosen(hash, req, known, front, a) + if ActionFor(hash, req, known, last) == a then [last] else []
  }

  /** A dry run changes nothing and names exactly the files the real run would ingest. */
  lemma DryRunPredicts(hash: string -> string, w: World, req: Request)
    requires req.rejected == {}
    ensures var dry, wet := req.(dryRun := true), req.(dryRun := false);
            var known := Known(w.manifest, req.force);
            && After(hash, w, dry) == w
            && Chosen(hash, dry, known, req.files, WouldIngest) == Chosen(hash, wet, known, req.files, Ingested)
            && Outcome(hash, w, dry).ingested == Outcome(hash, w, wet).ingested
  {
    DryRunChoices(hash, req.(dryRun := true), req.(dryRun := false), Known(w.manifest, req.force), req.files);
  }

  lemma {:induction false} DryRunChoices(hash: string -> string, dry: Request, wet: Request, known: Hashes, files: seq<string>)
    requires dry.dryRun && wet == dry.(dryRun := false) && dry.rejected == {}
    ensures Chosen(hash, dry, known, files, WouldIngest) == Chosen(hash, wet, known, files, Ingested)
    ensures Report(hash, dry, known, files).ingested == Report(hash, wet, known, files).ingested
  {
    if files != [] {
      DryRunChoices(hash, dry, wet, known, files[..|files| - 1]);
    }
  }

  // ---------------------------------------------------------------- lost manifest writes

  /** The run stores the current text of `path`. */
  predicate Ingests(hash: string -> string, known: Hashes, req: Request, path: string) {
    path in req.files && path in req.contents && ActionFor(hash, req, known, path) == Ingested
  }

  /** The store after runs that all died before their manifest write, each on a list of files it
      got through. */
  function LogAfterLost(hash: string -> string, w: World, lost: seq<Request>): seq<Memory> {
    if lost == [] then w.log
    else
      var last := lost[|lost| - 1];
      After(hash, World(w.manifest, LogAfterLost(hash, w, lost[..|lost| - 1])), last).log
  }

  /** The text of `path` stored by the last of these runs that stored one. */
  function LostText(hash: string -> string, w: World, lost: seq<Request>, path: string): Option<string> {
    if lost == [] then None
    else
      var last := lost[|lost| - 1];
      if Ingests(hash, Known(w.manifest, last.force), last, path) then Some(last.contents[path])
      else LostText(hash, w, lost[..|lost| - 1], path)
  }

  lemma {:induction false} LatestAfterLost(hash: string -> string, w: World, lost: seq<Request>, path: string)
    ensures Latest(LogAfterLost(hash, w, lost), path) ==
            if LostText(hash, w, lost, path).Some? then LostText(hash, w, lost, path) else Latest(w.log, path)
  {
    if lost != [] {
      var m := |lost| - 1;
      LatestAfterLost(hash, w, lost[..m], path);
      LatestAfter(hash, lost[m], Known(w.manifest, lost[m].force), LogAfterLost(hash, w, lost[..m]), lost[m].files, path);
    }
  }

  /** Nothing tells the next run that `path` changed: its saved hash fits, while the store got
      another text from a run that could not say so. */
  predicate Reverted(hash: string -> string, w: World, lost: seq<Request>, req: Request, path: string)
    requires path in req.contents
  {
    && path in Known(w.manifest, req.force) && Known(w.manifest, req.force)[path] == hash(req.contents[path])
    && LostText(hash, w, lost, path).Some? && LostText(hash, w, lost, path).value != req.contents[path]
  }

  /** Exactly when lost manifest writes do harm: after any number of them the next run still
      leaves a listed, non-blank file that is not rejected stored as it is, unless the file
      reverted to its last recorded text and the run is not forced. */
  lemma LostWritesHarmIff(hash: string -> string, w: World, lost: seq<Request>, req: Request, path: string)
    requires Injective(hash) && Consistent(hash, w) && !req.dryRun
    requires path in req.files && path in req.contents && !Blank(req.contents[path]) && path !in req.rejected
    ensures Latest(After(hash, World(w.manifest, LogAfterLost(hash, w, lost)), req).log, path) == Some(req.contents[path])
            <==> !Reverted(hash, w, lost, req, path)
  {
    LatestAfterLost(hash, w, lost, path);
    LatestAfter(hash, req, Known(w.manifest, req.force), LogAfterLost(hash, w, lost), req.files, path);
  }

  /** The harm is real: a file that goes back to its earlier text is taken for unchanged while
      the store keeps the text in between. */
  lemma LostManifestWrite(hash: string -> string, a: string, b: string)
    requires Injective(hash) && a != b && !Blank(a) && !Blank(b)
    ensures var w1 := After(hash, World(Missing, []), OneFile(a));
            var lost := w1.(log := After(hash, w1, OneFile(b)).log);
            && Outcome(hash, lost, OneFile(a)).ingested == 0
            && Latest(After(hash, lost, OneFile(a)).log, "f") == Some(b)
  {
    var w1 := After(hash, World(Missing, []), OneFile(a));
    var known := map["f" := hash(a)];
    assert Hashed(hash, OneFile(a), map[], ["f"]) == known by {
      forall p {
        HashedAfter(hash, OneFile(a), map[], ["f"], p);
      }
    }
    var lost := w1.(log := After(hash, w1, OneFile(b)).log);
    assert Latest(lost.log, "f") == Some(b) by {
      LatestAfter(hash, OneFile(b), known, w1.log, ["f"], "f");
    }
    assert ActionFor(hash, OneFile(a), known, "f") == Unchanged;
    LatestAfter(hash, OneFile(a), known, lost.log, ["f"], "f");
    NoneIngested(hash, OneFile(a), known, ["f"]);
  }

  function OneFile(text: string): Request {
    Request(["f"], map["f" := text], {}, false, false)
  }

  // ---------------------------------------------------------------- one manifest, two stores

  function TenantPart(tenant: string): string {
    if tenant == "" then "default" else tenant
  }

  function SourcePart(source: string): string {
    if source == "" then "" else "-" + source
  }

  /** `_manifest_path`, up to the directory and the extension. */
  function ManifestName(tenant: string, source: string): string {
    "sync-" + TenantPart(tenant) + SourcePart(source)
  }

  lemma NameParts(tenant: string, source: string)
    ensures ManifestName(tenant, source) == "sync-" + (TenantPart(tenant) + SourcePart(source))
  {
  }

  /** The longer tenant goes on with a hyphen and the beginning of the other store's source. */
  predicate Straddles(tenant: string, source: string, tenant': string, source': string) {
    var t, t' := TenantPart(tenant), TenantPart(tenant');
    t + "-" <= t' && source != "" && source == t'[|t| + 1..] + SourcePart(source')
  }

  lemma StraddlingShares(tenant: string, source: string, tenant': string, source': string)
    requires Straddles(tenant, source, tenant', source')
    ensures ManifestName(tenant, source) == ManifestName(tenant', source')
  {
    var t, t', s' := TenantPart(tenant), TenantPart(tenant'), SourcePart(source');
    var m := t'[|t| + 1..];
    assert t' == t + "-" + m;
    assert t + ("-" + (m + s')) == t' + s';
    NameParts(tenant, source);
    NameParts(tenant', source');
  }

  lemma SharedSplits(tenant: string, source: string, tenant': string, source': string)
    requires |TenantPart(tenant)| <= |TenantPart(tenant')|
    requires ManifestName(tenant, source) == ManifestName(tenant', source')
    ensures var t, t' := TenantPart(tenant), TenantPart(tenant');
            t <= t' && SourcePart(source) == t'[|t|..] + SourcePart(source')
  {
    NameParts(tenant, source);
    NameParts(tenant', source');
    var t, t', s, s' := TenantPart(tenant), TenantPart(tenant'), SourcePart(source), SourcePart(source');
    assert ("sync-" + (t + s))[5..] == t + s && ("sync-" + (t' + s'))[5..] == t' + s';
    assert (t + s)[..|t|] == t && (t' + s')[..|t|] == t'[..|t|];
    assert (t + s)[|t|..] == s && (t' + s')[|t|..] == t'[|t|..] + s';
  }

  lemma SourcePartTells(a: string, b: string)
    requires SourcePart(a) == SourcePart(b)
    ensures a == b
  {
    if a != "" && b != "" {
      assert ("-" + a)[1..] == a && ("-" + b)[1..] == b;
    }
  }

  /** Exactly which stores share a manifest, the tenant with the shorter name first: the same store, or one
      whose tenant and source meet at another hyphen. */
  lemma SharedManifestIff(tenant: string, source: string, tenant': string, source': string)
    requires |TenantPart(tenant)| <= |TenantPart(tenant')|
    ensures ManifestName(tenant, source) == ManifestName(tenant', source') <==>
            || (TenantPart(tenant) == TenantPart(tenant') && source == source')
            || Straddles(tenant, source, tenant', source')
  {
    if ManifestName(tenant, source) == ManifestName(tenant', source') {
      SharedSplits(tenant, source, tenant', source');
      var t, t', s' := TenantPart(tenant), TenantPart(tenant'), SourcePart(source');
      var x := t'[|t|..];
      if x == "" {
        assert t' == t && x + s' == s';
        SourcePartTells(source, source');
      } else {
        assert ("-" + source)[0] == x[0] && ("-" + source)[1..] == (x + s')[1..] == x[1..] + s';
        assert t' == t + x && (t + "-") == t'[..|t| + 1];
      }
    } else if Straddles(tenant, source, tenant', source') {
      StraddlingShares(tenant, source, tenant', source');
      assert false;
    }
  }

  /** What that does: a file the first store took in is skipped for the other one, which never gets it. */
  lemma SharedManifestSkips(hash: string -> string, w: World, other: seq<Memory>, req: Request, path: string)
    requires !req.dryRun && path in req.files && Ingests(hash, Known(w.manifest, req.force), req, path)
    ensures var shared := World(After(hash, w, req).manifest, other);
            Latest(After(hash, shared, req.(force := false)).log, path) == Latest(other, path)
  {
    var known := Known(w.manifest, req.force);
    var shared := World(After(hash, w, req).manifest, other);
    HashedAfter(hash, req, known, req.files, path);
    LatestAfter(hash, req.(force := false), shared.manifest.hashes, other, req.files, path);
  }

  lemma HyphensCollide()
    ensures ManifestName("a", "b-c") == ManifestName("a-b", "c")
  {
    assert "sync-" + "a" + ("-" + "b-c") == "sync-a-b-c";
  }
}
