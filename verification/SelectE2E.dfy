/** `scripts/select-e2e.ts`: which end-to-end tests a set of changed files calls for. */
module SelectE2E {
  import opened Results
  import opened Sequences
  import opened Orders
  import opened Text
  import opened Glob

  const DOC_ROOT_FILES: set<string> :=
    {"README.md", "CLAUDE.md", "AGENTS.md", "CHANGELOG.md", "TODOS.md", "LICENSE", "VERSION"}

  const ESCAPE_HATCH_FILES: set<string> :=
    {"src/schema.sql", "src/core/migrate.ts", "src/core/db.ts", "src/core/engine-factory.ts", "src/core/operations.ts",
     "package.json", "bun.lock", "Dockerfile.ci", "docker-compose.ci.yml", "scripts/ci-local.sh", "scripts/run-e2e.sh",
     "scripts/select-e2e.ts", "scripts/e2e-test-map.ts", "test/e2e/helpers.ts"}

  const ESCAPE_HATCH_PREFIXES: seq<string> :=
    ["src/commands/migrations/", "test/e2e/fixtures/", "skills/", ".github/workflows/"]

  predicate IsDocPath(p: string) {
    p in DOC_ROOT_FILES || ('/' !in p && EndsWith(p, ".md")) || StartsWith(p, "docs/")
  }

  predicate IsEscapeHatch(p: string) {
    p in ESCAPE_HATCH_FILES || exists i | 0 <= i < |ESCAPE_HATCH_PREFIXES| :: StartsWith(p, ESCAPE_HATCH_PREFIXES[i])
  }

  predicate IsE2ETest(p: string) {
    StartsWith(p, "test/e2e/") && EndsWith(p, ".test.ts")
  }

  /** The map from globs to tests, in its own order. */
  datatype Entry = Entry(glob: string, tests: seq<string>)

  datatype Classification = EMPTY | DOC_ONLY | SRC

  function ClassifySpec(changed: seq<string>): Classification {
    if changed == [] then EMPTY else if exists f | f in changed :: !IsDocPath(f) then SRC else DOC_ONLY
  }

  method Classify(changed: seq<string>) returns (c: Classification)
    ensures c == ClassifySpec(changed)
  {
    if |changed| == 0 {
      return EMPTY;
    }
    for i := 0 to |changed|
      invariant forall j | 0 <= j < i :: IsDocPath(changed[j])
    {
      if !IsDocPath(changed[i]) {
        assert changed[i] in changed;
        return SRC;
      }
    }
    return DOC_ONLY;
  }

  /** The file is looked up in the map. */
  predicate Mapped(f: string) {
    !IsDocPath(f) && !IsE2ETest(f)
  }

  /** What one changed file adds. */
  function Adds(map_: seq<Entry>, f: string): set<string> {
    if IsDocPath(f) then {}
    else if IsE2ETest(f) then {f}
    else MapAdds(map_, f)
  }

  function MapAdds(map_: seq<Entry>, f: string): set<string> {
    if map_ == [] then {}
    else
      var last := map_[|map_| - 1];
      MapAdds(map_[..|map_| - 1], f) + if Accepts(last.glob, f, false) then Elements(last.tests) else {}
  }

  function AllAdded(map_: seq<Entry>, changed: seq<string>): set<string> {
    if changed == [] then {} else AllAdded(map_, changed[..|changed| - 1]) + Adds(map_, changed[|changed| - 1])
  }

  /** What is decided: every test, none, a set of them, or a refusal of the map's syntax. */
  datatype Decision = RunAll | RunNone | RunSome(tests: set<string>) | BadGlob

  predicate Unreadable(map_: seq<Entry>) {
    exists e | e in map_ :: Unsupported(e.glob)
  }

  function Decide(map_: seq<Entry>, changed: seq<string>): Decision {
    match ClassifySpec(changed)
    case EMPTY => RunAll
    case DOC_ONLY => RunNone
    case SRC =>
      if exists f | f in changed :: IsEscapeHatch(f) then RunAll
      else if Unreadable(map_) && exists f | f in changed :: Mapped(f) then BadGlob
      else
        var added := AllAdded(map_, changed);
        if added == {} then RunAll else RunSome(added)
  }

  /** `tests` lists the set once each, sorted. */
  ghost predicate Listing(tests: seq<string>, of: set<string>) {
    SortedBy(tests, StringLe) && Distinct(tests) && forall t :: t in tests <==> t in of
  }

  lemma SortLists(xs: seq<string>)
    requires Distinct(xs)
    ensures Listing(Sort(xs, StringLe), Elements(xs))
  {
    var sorted := Sort(xs, StringLe);
    StringOrder();
    SortSorts(xs, StringLe);
    SortPermutes(xs, StringLe);
    DistinctPermuted(xs, sorted);
    forall t ensures t in sorted <==> t in xs {
      assert t in multiset(sorted) <==> t in multiset(xs);
    }
  }

  /** A listing is determined by its set. */
  lemma ListingUnique(a: seq<string>, b: seq<string>, of: set<string>)
    requires Listing(a, of) && Listing(b, of)
    ensures a == b
  {
    StringOrder();
    forall t ensures multiset(a)[t] == multiset(b)[t] {
      if t in of {
        OnceInMultiset(a, t);
        OnceInMultiset(b, t);
      } else {
        assert t !in multiset(a) && t !in multiset(b);
      }
    }
    SortedUnique(a, b, StringLe);
  }

  type Tests = Result<seq<string>, GlobError>

  /** A JavaScript `Set` filled in insertion order. */
  function WithAll(result: seq<string>, tests: seq<string>): seq<string> {
    if tests == [] then result
    else
      var before, last := WithAll(result, tests[..|tests| - 1]), tests[|tests| - 1];
      if last in before then before else before + [last]
  }

  lemma {:induction false} WithAllIsUnion(result: seq<string>, tests: seq<string>)
    requires Distinct(result)
    ensures Distinct(WithAll(result, tests))
    ensures Elements(WithAll(result, tests)) == Elements(result) + Elements(tests)
  {
    if tests != [] {
      var m := |tests| - 1;
      WithAllIsUnion(result, tests[..m]);
      ElementsAppend(tests[..m], tests[m]);
      ElementsAppend(WithAll(result, tests[..m]), tests[m]);
      assert tests == tests[..m] + [tests[m]];
    }
  }

  /** The inner loop: every map entry whose glob matches adds its tests. */
  method AddMapped(map_: seq<Entry>, f: string, result: seq<string>) returns (r: Tests)
    requires Distinct(result)
    ensures Unreadable(map_) ==> r.Err?
    ensures !Unreadable(map_) ==>
              r.Ok? && Distinct(r.value) && Elements(r.value) == Elements(result) + MapAdds(map_, f)
  {
    var out := result;
    for i := 0 to |map_|
      invariant forall e | e in map_[..i] :: !Unsupported(e.glob)
      invariant Distinct(out) && Elements(out) == Elements(result) + MapAdds(map_[..i], f)
    {
      assert map_[..i + 1] == map_[..i] + [map_[i]] && map_[..i + 1][..i] == map_[..i];
      var matched := MatchGlob(map_[i].glob, f);
      if matched.Err? {
        assert map_[i] in map_;
        return Err(matched.error);
      }
      if matched.value {
        WithAllIsUnion(out, map_[i].tests);
        out := WithAll(out, map_[i].tests);
      }
    }
    assert map_[..|map_|] == map_;
    return Ok(out);
  }

  /** `selectTests`. */
  method SelectTests(changed: seq<string>, all: seq<string>, map_: seq<Entry>) returns (r: Tests)
    ensures match Decide(map_, changed)
            case RunAll => r == Ok(Sort(all, StringLe))
            case RunNone => r == Ok([])
            case RunSome(tests) => r.Ok? && Listing(r.value, tests)
            case BadGlob => r.Err?
  {
    var cls := Classify(changed);
    var allSorted := Sort(all, StringLe);
    if cls == EMPTY {
      return Ok(allSorted);
    }
    if cls == DOC_ONLY {
      return Ok([]);
    }
    for i := 0 to |changed|
      invariant forall j | 0 <= j < i :: !IsEscapeHatch(changed[j])
    {
      if IsEscapeHatch(changed[i]) {
        assert changed[i] in changed;
        return Ok(allSorted);
      }
    }
    assert !exists f | f in changed :: IsEscapeHatch(f);
    r := UnionOf(changed, map_);
    if r.Ok? {
      var result := r.value;
      if |result| == 0 {
        assert Elements(result) == {};
        return Ok(allSorted);
      }
      assert result[0] in Elements(result);
      SortLists(result);
      r := Ok(Sort(result, StringLe));
    }
  }

  method UnionOf(changed: seq<string>, map_: seq<Entry>) returns (r: Tests)
    ensures Unreadable(map_) && (exists f | f in changed :: Mapped(f)) ==> r.Err?
    ensures !(Unreadable(map_) && exists f | f in changed :: Mapped(f)) ==>
              r.Ok? && Distinct(r.value) && Elements(r.value) == AllAdded(map_, changed)
  {
    var result: seq<string> := [];
    for i := 0 to |changed|
      invariant Unreadable(map_) ==> forall f | f in changed[..i] :: !Mapped(f)
      invariant Distinct(result) && Elements(result) == AllAdded(map_, changed[..i])
    {
      var f := changed[i];
      assert changed[..i + 1] == changed[..i] + [f] && changed[..i + 1][..i] == changed[..i];
      if IsDocPath(f) {
        continue;
      }
      if IsE2ETest(f) {
        WithAllIsUnion(result, [f]);
        result := WithAll(result, [f]);
        continue;
      }
      var more := AddMapped(map_, f, result);
      if more.Err? {
        assert f in changed && Mapped(f);
        return more;
      }
      result := more.value;
    }
    assert changed[..|changed|] == changed;
    return Ok(result);
  }

  // ---------------------------------------------------------------- what is decided when

  lemma {:induction false} AddedMembers(map_: seq<Entry>, changed: seq<string>)
    ensures forall t :: t in AllAdded(map_, changed) <==> exists f :: f in changed && t in Adds(map_, f)
  {
    if changed != [] {
      var m := |changed| - 1;
      AddedMembers(map_, changed[..m]);
      assert changed == changed[..m] + [changed[m]];
      forall t ensures t in AllAdded(map_, changed) <==> exists f :: f in changed && t in Adds(map_, f) {
        if t in Adds(map_, changed[m]) {
          assert changed[m] in changed;
        }
        if t in AllAdded(map_, changed[..m]) {
          var f :| f in changed[..m] && t in Adds(map_, f);
          assert f in changed;
        }
      }
    }
  }

  ghost predicate SomeoneAdds(map_: seq<Entry>, changed: seq<string>) {
    exists f :: f in changed && Adds(map_, f) != {}
  }

  lemma AddedEmptyIff(map_: seq<Entry>, changed: seq<string>)
    ensures AllAdded(map_, changed) == {} <==> !SomeoneAdds(map_, changed)
  {
    AddedMembers(map_, changed);
    if AllAdded(map_, changed) != {} {
      var t :| t in AllAdded(map_, changed);
      var f :| f in changed && t in Adds(map_, f);
      assert Adds(map_, f) != {};
    }
    if SomeoneAdds(map_, changed) {
      var f :| f in changed && Adds(map_, f) != {};
      var t :| t in Adds(map_, f);
      assert t in AllAdded(map_, changed);
    }
  }

  /** With a readable map: nothing runs exactly for a non-empty change of documents only;
      everything runs exactly for no change, an escape hatch, or a source change where no
      changed file, mapped or test, adds a test. */
  lemma DecisionExact(map_: seq<Entry>, changed: seq<string>)
    requires !Unreadable(map_)
    ensures Decide(map_, changed) == RunNone <==> changed != [] && forall f | f in changed :: IsDocPath(f)
    ensures Decide(map_, changed) == RunAll <==>
              || changed == []
              || ((exists f :: f in changed && !IsDocPath(f)) && (exists f :: f in changed && IsEscapeHatch(f)))
              || ((exists f :: f in changed && !IsDocPath(f)) && !SomeoneAdds(map_, changed))
  {
    AddedEmptyIff(map_, changed);
  }

  /** A set of tests is never empty, holds exactly what some changed file adds, and is
      what runs whenever no branch before it applies. */
  lemma SelectionExact(map_: seq<Entry>, changed: seq<string>, t: string)
    requires Decide(map_, changed).RunSome?
    ensures Decide(map_, changed).tests != {}
    ensures t in Decide(map_, changed).tests <==> exists f :: f in changed && t in Adds(map_, f)
  {
    AddedMembers(map_, changed);
  }

  /** Where the header is wrong: an unmapped source file calls for every test only as long
      as no other changed file adds one; after that it is ignored. */
  lemma UnmappedFileIgnored(map_: seq<Entry>, changed: seq<string>, f: string)
    requires !Unreadable(map_) && !IsDocPath(f) && !IsEscapeHatch(f) && Adds(map_, f) == {}
    ensures Decide(map_, [f]) == RunAll
    ensures Decide(map_, changed + [f]) == RunAll <==>
            (exists g :: g in changed && IsEscapeHatch(g)) || !SomeoneAdds(map_, changed)
    ensures Decide(map_, changed).RunSome? ==> Decide(map_, changed + [f]) == Decide(map_, changed)
  {
    var more := changed + [f];
    assert f in [f] && f in more;
    assert [f][..0] == [];
    AddedEmptyIff(map_, changed);
    assert more[..|changed|] == changed;
    assert AllAdded(map_, more) == AllAdded(map_, changed) + Adds(map_, f);
    assert AllAdded(map_, [f]) == AllAdded(map_, []) + Adds(map_, f);
    assert forall g :: g in more <==> g in changed || g == f;
    if Decide(map_, changed).RunSome? {
      assert exists g | g in changed :: !IsDocPath(g);
    }
  }

  lemma ShortIsNoDoc(f: string)
    requires |f| == 1
    ensures !IsDocPath(f) && !IsE2ETest(f)
  {
  }

  lemma ShortIsNoHatch(f: string)
    requires |f| == 1
    ensures !IsEscapeHatch(f)
  {
  }

  lemma ShortGlob(a: string, f: string)
    requires |a| == |f| == 1 && a[0] != '*'
    ensures Accepts(a, f, false) <==> a == f
  {
    assert a[1..] == [] && f[1..] == [];
    assert a == [a[0]] && f == [f[0]];
  }

  lemma OneEntryAdds(a: string, f: string, test: string)
    requires |a| == |f| == 1 && a[0] != '*'
    ensures Adds([Entry(a, [test])], f) == if a == f then {test} else {}
  {
    var map_ := [Entry(a, [test])];
    ShortIsNoDoc(f);
    ShortGlob(a, f);
    assert map_[..|map_| - 1] == [] && MapAdds([], f) == {};
    assert Elements([test]) == {test};
  }

  /** For instance, of two files with one-character names map the first: the other alone runs everything,
      both together only what the first maps to. */
  lemma UnmappedBesideMapped(a: string, b: string, test: string)
    requires |a| == |b| == 1 && a != b && a[0] !in "?[{*"
    ensures Decide([Entry(a, [test])], [b]) == RunAll && Decide([Entry(a, [test])], [a, b]) == RunSome({test})
  {
    var map_, changed := [Entry(a, [test])], [a];
    OneEntryAdds(a, a, test);
    OneEntryAdds(a, b, test);
    ShortIsNoDoc(a);
    ShortIsNoDoc(b);
    ShortIsNoHatch(a);
    ShortIsNoHatch(b);
    assert changed[..|changed| - 1] == [] && AllAdded(map_, []) == {};
    assert AllAdded(map_, changed) == {test};
    assert a in changed && Decide(map_, changed) == RunSome({test});
    assert changed + [b] == [a, b];
    UnmappedFileIgnored(map_, changed, b);
  }

  /** Only which files changed matters, not their order or repetition. */
  lemma DecisionIgnoresOrder(map_: seq<Entry>, a: seq<string>, b: seq<string>)
    requires forall f :: f in a <==> f in b
    ensures Decide(map_, a) == Decide(map_, b)
  {
    AddedMembers(map_, a);
    AddedMembers(map_, b);
    assert AllAdded(map_, a) == AllAdded(map_, b);
    assert a != [] ==> a[0] in b;
    assert b != [] ==> b[0] in a;
  }
}
