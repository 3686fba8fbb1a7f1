/** What a sync stores, records and reports, told in its flags, the files and the saved hashes. */
module SyncLaws {
  import opened Sequences
  import opened Sync

  /** The file has text, and no hash counts that says the text was taken in before. */
  predicate Fresh(hash: string -> string, w: World, req: Request, path: string) {
    && path in req.contents && (exists c | c in req.contents[path] :: !PySpace(c))
    && (req.force || !w.manifest.Saved? || path !in w.manifest.hashes
        || w.manifest.hashes[path] != hash(req.contents[path]))
  }

  /** The file is unreadable, or the service rejects it when asked. */
  predicate Fails(hash: string -> string, w: World, req: Request, path: string) {
    path !in req.contents || (Fresh(hash, w, req, path) && !req.dryRun && path in req.rejected)
  }

  /** The file counts as ingested. */
  predicate TakesIn(hash: string -> string, w: World, req: Request, path: string) {
    Fresh(hash, w, req, path) && (req.dryRun || path !in req.rejected)
  }

  /** The file is readable and there is nothing to do. */
  predicate Passes(hash: string -> string, w: World, req: Request, path: string) {
    path in req.contents && !Fresh(hash, w, req, path)
  }

  lemma ActionMeans(hash: string -> string, w: World, req: Request, path: string)
    ensures var a := ActionFor(hash, req, Known(w.manifest, req.force), path);
            && (a == Error <==> Fails(hash, w, req, path))
            && (a == Ingested <==> TakesIn(hash, w, req, path) && !req.dryRun)
            && (a == WouldIngest <==> TakesIn(hash, w, req, path) && req.dryRun)
            && (a == Empty || a == Unchanged <==> Passes(hash, w, req, path))
  {
  }

  // ---------------------------------------------------------------- store and manifest

  lemma {:induction false} StoredUpTo(hash: string -> string, w: World, req: Request, files: seq<string>) returns (more: seq<Memory>)
    requires Distinct(files) && !req.dryRun
    ensures Stored(hash, req, Known(w.manifest, req.force), w.log, files) == w.log + more
    ensures forall m :: m in more <==> m.path in files && TakesIn(hash, w, req, m.path) && m.text == req.contents[m.path]
    ensures forall i, j | 0 <= i < j < |more| :: more[i].path != more[j].path
  {
    if files == [] {
      more := [];
    } else {
      var n := |files| - 1;
      var path := files[n];
      var before := StoredUpTo(hash, w, req, files[..n]);
      assert files == files[..n] + [path];
      assert forall i | 0 <= i < |before| :: before[i] in before;
      ActionMeans(hash, w, req, path);
      if TakesIn(hash, w, req, path) {
        more := before + [Memory(path, req.contents[path])];
        assert w.log + before + [Memory(path, req.contents[path])] == w.log + more;
      } else {
        more := before;
      }
    }
  }

  /** A run appends to the store exactly the texts of the listed files that are new and not rejected, each once;
      a dry run appends nothing. */
  lemma StoresExactly(hash: string -> string, w: World, req: Request) returns (more: seq<Memory>)
    requires Distinct(req.files)
    ensures After(hash, w, req).log == w.log + more
    ensures forall m :: m in more <==>
              && !req.dryRun && m.path in req.files && m.path !in req.rejected
              && Fresh(hash, w, req, m.path) && m.text == req.contents[m.path]
    ensures forall i, j | 0 <= i < j < |more| :: more[i].path != more[j].path
  {
    if req.dryRun {
      more := [];
    } else {
      more := StoredUpTo(hash, w, req, req.files);
    }
  }

  /** The manifest a run writes: the new hash of every file it took in, and any other hash of the old one unless
      the run was forced. */
  lemma RecordsExactly(hash: string -> string, w: World, req: Request, path: string)
    requires !req.dryRun
    ensures var stored := path in req.files && path !in req.rejected && Fresh(hash, w, req, path);
            var kept := !req.force && w.manifest.Saved? && path in w.manifest.hashes;
            var manifest := After(hash, w, req).manifest;
            && manifest.Saved?
            && (path in manifest.hashes <==> stored || kept)
            && (stored ==> manifest.hashes[path] == hash(req.contents[path]))
            && (kept && !stored ==> manifest.hashes[path] == w.manifest.hashes[path])
  {
    HashedAfter(hash, req, Known(w.manifest, req.force), req.files, path);
    ActionMeans(hash, w, req, path);
  }

  // ---------------------------------------------------------------- report

  function FailedFiles(hash: string -> string, w: World, req: Request, files: seq<string>): set<string> {
    set p | p in files && Fails(hash, w, req, p)
  }

  function TakenFiles(hash: string -> string, w: World, req: Request, files: seq<string>): set<string> {
    set p | p in files && TakesIn(hash, w, req, p)
  }

  function PassedFiles(hash: string -> string, w: World, req: Request, files: seq<string>): set<string> {
    set p | p in files && Passes(hash, w, req, p)
  }

  lemma FailedStep(hash: string -> string, w: World, req: Request, files: seq<string>)
    requires Distinct(files) && files != []
    ensures var m := |files| - 1;
            |FailedFiles(hash, w, req, files)| == |FailedFiles(hash, w, req, files[..m])| + if Fails(hash, w, req, files[m]) then 1 else 0
  {
    var m := |files| - 1;
    var front, last := files[..m], files[m];
    assert files == front + [last] && last !in front;
    assert FailedFiles(hash, w, req, files) == FailedFiles(hash, w, req, front) + if Fails(hash, w, req, last) then {last} else {};
  }

  lemma TakenStep(hash: string -> string, w: World, req: Request, files: seq<string>)
    requires Distinct(files) && files != []
    ensures var m := |files| - 1;
            |TakenFiles(hash, w, req, files)| == |TakenFiles(hash, w, req, files[..m])| + if TakesIn(hash, w, req, files[m]) then 1 else 0
  {
    var m := |files| - 1;
    var front, last := files[..m], files[m];
    assert files == front + [last] && last !in front;
    assert TakenFiles(hash, w, req, files) == TakenFiles(hash, w, req, front) + if TakesIn(hash, w, req, last) then {last} else {};
  }

  lemma PassedStep(hash: string -> string, w: World, req: Request, files: seq<string>)
    requires Distinct(files) && files != []
    ensures var m := |files| - 1;
            |PassedFiles(hash, w, req, files)| == |PassedFiles(hash, w, req, files[..m])| + if Passes(hash, w, req, files[m]) then 1 else 0
  {
    var m := |files| - 1;
    var front, last := files[..m], files[m];
    assert files == front + [last] && last !in front;
    assert PassedFiles(hash, w, req, files) == PassedFiles(hash, w, req, front) + if Passes(hash, w, req, last) then {last} else {};
  }

  /** The three counts are those of the files that failed, were taken in, and needed nothing. */
  lemma {:induction false} CountsExactly(hash: string -> string, w: World, req: Request, files: seq<string>)
    requires Distinct(files)
    ensures var r := Report(hash, req, Known(w.manifest, req.force), files);
            && r.failed == |FailedFiles(hash, w, req, files)|
            && r.ingested == |TakenFiles(hash, w, req, files)|
            && r.skipped == |PassedFiles(hash, w, req, files)|
  {
    if files != [] {
      var m := |files| - 1;
      CountsExactly(hash, w, req, files[..m]);
      FailedStep(hash, w, req, files);
      TakenStep(hash, w, req, files);
      PassedStep(hash, w, req, files);
      ActionMeans(hash, w, req, files[m]);
    }
  }

  /** How often the report lists a file with an action. */
  function Mentions(hash: string -> string, w: World, req: Request, path: string, a: Action): nat {
    match a
    case Error => if Fails(hash, w, req, path) then 2 else 0
    case Ingested => if TakesIn(hash, w, req, path) && !req.dryRun then 1 else 0
    case WouldIngest => if TakesIn(hash, w, req, path) && req.dryRun then 1 else 0
    case _ => 0
  }

  lemma OwnDetails(hash: string -> string, w: World, req: Request, path: string, p: string, a: Action)
    ensures var own := Details(path, ActionFor(hash, req, Known(w.manifest, req.force), path));
            multiset(own)[(p, a)] == if p == path then Mentions(hash, w, req, path, a) else 0
  {
    ActionMeans(hash, w, req, path);
  }

  lemma DetailsStep(hash: string -> string, w: World, req: Request, files: seq<string>)
    requires files != []
    ensures var m, known := |files| - 1, Known(w.manifest, req.force);
            Report(hash, req, known, files).details
            == Report(hash, req, known, files[..m]).details + Details(files[m], ActionFor(hash, req, known, files[m]))
  {
  }

  /** The details list a failed file twice, a file taken in once, and nothing else. */
  lemma {:induction false} DetailsExactly(hash: string -> string, w: World, req: Request, files: seq<string>, p: string, a: Action)
    requires Distinct(files)
    ensures var r := Report(hash, req, Known(w.manifest, req.force), files);
            multiset(r.details)[(p, a)] == if p in files then Mentions(hash, w, req, p, a) else 0
  {
    if files != [] {
      var m := |files| - 1;
      DetailsExactly(hash, w, req, files[..m], p, a);
      DetailsStep(hash, w, req, files);
      OwnDetails(hash, w, req, files[m], p, a);
      assert files == files[..m] + [files[m]];
    }
  }

  // ---------------------------------------------------------------- the manifest's name

  /** The manifest is named after the tenant, `default` when it has no name, and the source if there is one. */
  lemma ManifestNames(tenant: string, source: string)
    ensures tenant != "" && source != "" ==> ManifestName(tenant, source) == "sync-" + tenant + "-" + source
    ensures tenant != "" ==> ManifestName(tenant, "") == "sync-" + tenant
    ensures source != "" ==> ManifestName("", source) == "sync-default-" + source
    ensures ManifestName("", "") == "sync-default"
  {
    assert "sync-" + tenant + ("-" + source) == "sync-" + tenant + "-" + source;
    assert "sync-" + tenant + "" == "sync-" + tenant;
    assert "sync-" + "default" == "sync-default";
    assert "sync-default" + ("-" + source) == "sync-default-" + source;
  }
}
