/** Which tests a change runs, told in file names and the map. */
module SelectLaws {
  import opened Sequences
  import opened Text
  import opened Glob
  import opened SelectE2E

  /** Files whose change calls for no test: those under docs/, and at the root Markdown, LICENSE and VERSION. */
  predicate Document(f: string) {
    || "docs/" <= f || f == "LICENSE" || f == "VERSION"
    || ('/' !in f && |f| >= 3 && f[|f| - 3..] == ".md")
  }

  /** End-to-end tests call for themselves. */
  predicate TestFile(f: string) {
    "test/e2e/" <= f && |f| >= 8 && f[|f| - 8..] == ".test.ts"
  }

  predicate CentralRootFile(f: string) {
    f == "package.json" || f == "bun.lock" || f == "Dockerfile.ci" || f == "docker-compose.ci.yml"
  }

  predicate CentralFile(f: string) {
    || f == "src/schema.sql" || f == "src/core/migrate.ts" || f == "src/core/db.ts" || f == "src/core/engine-factory.ts"
    || f == "src/core/operations.ts" || f == "scripts/ci-local.sh" || f == "scripts/run-e2e.sh"
    || f == "scripts/select-e2e.ts" || f == "scripts/e2e-test-map.ts" || f == "test/e2e/helpers.ts"
  }

  predicate InCentralFolder(f: string) {
    "skills/" <= f || ".github/workflows/" <= f || "src/commands/migrations/" <= f || "test/e2e/fixtures/" <= f
  }

  /** Files whose change calls for every test. */
  predicate Central(f: string) {
    InCentralFolder(f) || CentralRootFile(f) || CentralFile(f)
  }

  /** The change of `f` calls for test `t`. */
  ghost predicate CallsFor(map_: seq<Entry>, f: string, t: string) {
    if TestFile(f) then t == f
    else !Document(f) && exists e | e in map_ :: Accepts(e.glob, f, false) && t in e.tests
  }

  lemma DocumentIff(f: string)
    ensures IsDocPath(f) <==> Document(f)
  {
    assert "README.md"[6..] == "CLAUDE.md"[6..] == "AGENTS.md"[6..] == "CHANGELOG.md"[9..] == "TODOS.md"[5..] == ".md";
  }

  lemma TestFileIff(f: string)
    ensures IsE2ETest(f) <==> TestFile(f)
    ensures TestFile(f) ==> !Document(f)
  {
    if TestFile(f) {
      assert f[0] == 't' && f[4] == '/';
    }
  }

  lemma PrefixIff(f: string, prefix: string)
    ensures StartsWith(f, prefix) <==> prefix <= f
  {
  }

  lemma FolderIff(f: string)
    ensures InCentralFolder(f) <==> exists i | 0 <= i < |ESCAPE_HATCH_PREFIXES| :: StartsWith(f, ESCAPE_HATCH_PREFIXES[i])
  {
    forall i | 0 <= i < |ESCAPE_HATCH_PREFIXES| ensures StartsWith(f, ESCAPE_HATCH_PREFIXES[i]) <==> ESCAPE_HATCH_PREFIXES[i] <= f {
      PrefixIff(f, ESCAPE_HATCH_PREFIXES[i]);
    }
    assert ESCAPE_HATCH_PREFIXES[0] == "src/commands/migrations/" && ESCAPE_HATCH_PREFIXES[1] == "test/e2e/fixtures/";
    assert ESCAPE_HATCH_PREFIXES[2] == "skills/" && ESCAPE_HATCH_PREFIXES[3] == ".github/workflows/";
  }

  lemma CentralIff(f: string)
    ensures IsEscapeHatch(f) <==> Central(f)
  {
    FolderIff(f);
    assert f in ESCAPE_HATCH_FILES <==> CentralRootFile(f) || CentralFile(f);
  }

  lemma FolderIsNoDocument(f: string)
    requires InCentralFolder(f)
    ensures !Document(f)
  {
    assert f[0] != 'd';
    assert f[3] == '/' || f[4] == '/' || f[6] == '/' || f[7] == '/';
  }

  lemma RootFileIsNoDocument(f: string)
    requires CentralRootFile(f)
    ensures !Document(f)
  {
    assert f[0] != 'd' || f[3] != 's';
    assert f[|f| - 1] != 'd';
  }

  lemma FileIsNoDocument(f: string)
    requires CentralFile(f)
    ensures !Document(f)
  {
    assert f[0] != 'd';
    assert f[3] == '/' || f[4] == '/' || f[7] == '/';
  }

  /** No document is central. */
  lemma CentralIsNoDocument(f: string)
    requires Central(f)
    ensures !Document(f)
  {
    if InCentralFolder(f) {
      FolderIsNoDocument(f);
    } else if CentralRootFile(f) {
      RootFileIsNoDocument(f);
    } else {
      FileIsNoDocument(f);
    }
  }

  lemma {:induction false} MapAddsIff(map_: seq<Entry>, f: string, t: string)
    ensures t in MapAdds(map_, f) <==> exists e | e in map_ :: Accepts(e.glob, f, false) && t in e.tests
  {
    if map_ != [] {
      var m := |map_| - 1;
      MapAddsIff(map_[..m], f, t);
      assert map_ == map_[..m] + [map_[m]];
      assert forall e :: e in map_ <==> e in map_[..m] || e == map_[m];
      assert t in Elements(map_[m].tests) <==> t in map_[m].tests;
    }
  }

  lemma AddsIff(map_: seq<Entry>, f: string, t: string)
    ensures t in Adds(map_, f) <==> CallsFor(map_, f, t)
  {
    DocumentIff(f);
    TestFileIff(f);
    MapAddsIff(map_, f, t);
  }

  lemma AddedIff(map_: seq<Entry>, changed: seq<string>, t: string)
    ensures t in AllAdded(map_, changed) <==> exists f | f in changed :: CallsFor(map_, f, t)
  {
    AddedMembers(map_, changed);
    forall f | f in changed ensures t in Adds(map_, f) <==> CallsFor(map_, f, t) {
      AddsIff(map_, f, t);
    }
    if exists f | f in changed :: CallsFor(map_, f, t) {
      var f :| f in changed && CallsFor(map_, f, t);
      assert t in Adds(map_, f);
    }
  }

  /** No test runs exactly when something changed and nothing but documents. */
  lemma NothingRunsIff(map_: seq<Entry>, changed: seq<string>)
    ensures Decide(map_, changed) == RunNone <==> changed != [] && forall f | f in changed :: Document(f)
  {
    forall f ensures IsDocPath(f) <==> Document(f) {
      DocumentIff(f);
    }
  }

  /** Any change of a central file runs every test, whatever else changed and whatever the map. */
  lemma CentralRunsAll(map_: seq<Entry>, changed: seq<string>, f: string)
    requires f in changed && Central(f)
    ensures Decide(map_, changed) == RunAll
  {
    CentralIff(f);
    CentralIsNoDocument(f);
    DocumentIff(f);
  }

  /** Without a central file and with a readable map, what runs is exactly what the changed files call for, and
      every test when they are no documents and call for none. */
  lemma RunsCalledFor(map_: seq<Entry>, changed: seq<string>, t: string)
    requires (forall f | f in changed :: !Central(f)) && (exists f | f in changed :: !Document(f))
    requires forall e | e in map_ :: '?' !in e.glob && '[' !in e.glob && '{' !in e.glob
    ensures Decide(map_, changed) == RunAll || Decide(map_, changed).RunSome?
    ensures Decide(map_, changed).RunSome? ==>
              (t in Decide(map_, changed).tests <==> exists f | f in changed :: CallsFor(map_, f, t))
    ensures Decide(map_, changed) == RunAll ==> !exists f | f in changed :: CallsFor(map_, f, t)
    ensures Decide(map_, changed).RunSome? ==> Decide(map_, changed).tests != {}
  {
    forall f | f in changed ensures !IsEscapeHatch(f) && (IsDocPath(f) <==> Document(f)) {
      CentralIff(f);
      DocumentIff(f);
    }
    AddedIff(map_, changed, t);
  }
}
