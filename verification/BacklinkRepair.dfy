/** Repeated find-then-fix over a brain directory: gaps close, stay closed, and run out. */
module BacklinkRepair {
  import opened Sequences
  import opened Text
  import opened Backlinks

  /** A name the walk reports: a Markdown file whose name holds no line break followed by a
      section heading. */
  ghost predicate PlainName(path: string) {
    EndsWith(path, ".md") && !Contains(Basename(path), "\n## ")
  }

  /** What a reference to a person or a company looks up. */
  predicate IsEntity(slug: string) {
    StartsWith(slug, "people/") || StartsWith(slug, "companies/")
  }

  /** The slug of a person's or company's page leads back to that page. */
  ghost predicate SlugLeadsBack(path: string) {
    IsEntity(SlugOf(path)) ==> SlugOf(path) + ".md" == path
  }

  ghost predicate PlainNames(pages: Pages) {
    forall p | p in pages :: PlainName(p)
  }

  ghost predicate SlugsLeadBack(pages: Pages) {
    forall p | p in pages :: SlugLeadsBack(p)
  }

  ghost predicate GoodPages(pages: Pages) {
    PlainNames(pages) && SlugsLeadBack(pages)
  }

  /** Page `target` names the file of `source`. */
  ghost predicate Closed(pages: Pages, source: string, target: string)
    requires target in pages
  {
    Contains(pages[target], Basename(source))
  }

  // ---------------------------------------------------------------- one insertion

  lemma {:induction false} BasenameSuffix(path: string)
    ensures EndsWith(path, Basename(path))
  {
    if path != [] && path[|path| - 1] != '/' {
      var front := path[..|path| - 1];
      BasenameSuffix(front);
      var b := Basename(front);
      assert path[|path| - |b| - 1..] == front[|front| - |b|..] + [path[|path| - 1]];
    }
  }

  lemma BasenameExtension(path: string)
    requires EndsWith(path, ".md")
    ensures EndsWith(Basename(path), ".md")
  {
    BasenameSuffix(path);
    BasenameTail(path);
    SuffixOfSuffix(path, Basename(path), ".md");
  }

  lemma SuffixOfSuffix(s: string, a: string, b: string)
    requires EndsWith(s, a) && EndsWith(s, b) && |b| <= |a|
    ensures EndsWith(a, b)
  {
    assert s[|s| - |a|..][|a| - |b|..] == s[|s| - |b|..];
  }

  lemma BasenameTail(path: string)
    requires EndsWith(path, ".md")
    ensures |Basename(path)| >= 3
  {
    var n := |path|;
    assert path[n - 3..] == ".md";
    assert path[n - 1] == 'd' && path[n - 2] == 'm' && path[n - 3] == '.';
    var a, b := path[..n - 1], path[..n - 2];
    assert a[..|a| - 1] == b && a[|a| - 1] == 'm' && b[|b| - 1] == '.';
    assert Basename(path) == Basename(a) + ['d'];
    assert Basename(a) == Basename(b) + ['m'];
    assert Basename(b) == Basename(b[..|b| - 1]) + ['.'];
  }

  /** Every written entry names the file of its source page. */
  lemma EntryNamesSource(gap: Gap, date: string)
    ensures Contains(EntryFor(gap, date), Basename(gap.sourcePage))
  {
    BasenameSuffix(gap.sourcePage);
    EndsWithContains(gap.sourcePage, Basename(gap.sourcePage));
    var before := "- **" + date + "** | Referenced in [" + gap.sourceTitle + "](" + UpDirs(Depth(gap.targetPage));
    ContainsWithin(before, gap.sourcePage, ")", Basename(gap.sourcePage));
    assert EntryFor(gap, date) == before + gap.sourcePage + ")";
  }

  /** An insertion either follows the trimmed text or goes right before a section break. */
  lemma InsertShape(content: string, entry: string) returns (atEnd: bool, cut: nat, x: string)
    ensures Contains(x, entry)
    ensures atEnd ==> InsertEntry(content, entry) == TrimEnd(content) + x
    ensures !atEnd ==> OccursAt(content, "\n## ", cut) && InsertEntry(content, entry) == content[..cut] + x + content[cut..]
  {
    ContainsAt(entry, entry, 0);
    atEnd, cut := true, 0;
    if !Contains(content, TIMELINE) {
      x := "\n\n## Timeline\n\n" + entry + "\n";
      ContainsWithin("\n\n## Timeline\n\n", entry, "\n", entry);
      assert TrimEnd(content) + x == TrimEnd(content) + "\n\n## Timeline\n\n" + entry + "\n";
    } else if NextSection(content).Some? {
      atEnd, cut, x := false, NextSection(content).value, "\n" + entry;
      ContainsPrepend("\n", entry, entry);
      assert content[..cut] + x + content[cut..] == content[..cut] + "\n" + entry + content[cut..];
    } else {
      x := "\n" + entry + "\n";
      ContainsWithin("\n", entry, "\n", entry);
      assert TrimEnd(content) + x == TrimEnd(content) + "\n" + entry + "\n";
    }
  }

  lemma InsertedIsThere(content: string, entry: string)
    ensures Contains(InsertEntry(content, entry), entry)
  {
    var atEnd, cut, x := InsertShape(content, entry);
    if atEnd {
      ContainsPrepend(TrimEnd(content), x, entry);
    } else {
      ContainsWithin(content[..cut], x, content[cut..], entry);
    }
  }

  /** A piece of text that neither ends in white space or a hash nor holds a section break. */
  ghost predicate Whole(f: string) {
    f != [] && !IsSpace(f[|f| - 1]) && f[|f| - 1] != '#' && !Contains(f, "\n## ")
  }

  lemma GoodName(path: string)
    requires PlainName(path)
    ensures Whole(Basename(path))
  {
    BasenameExtension(path);
    var f := Basename(path);
    assert f[|f| - 3..][2] == f[|f| - 1] == 'd';
  }

  lemma TrimKeepsName(content: string, f: string)
    requires Whole(f) && Contains(content, f)
    ensures Contains(TrimEnd(content), f)
  {
    var i :| 0 <= i <= |content| && OccursAt(content, f, i);
    var n := |f|;
    assert content[i..i + n][n - 1] == f[n - 1];
    var t := TrimEnd(content);
    assert i + n <= |t|;
    assert t[i..i + n] == content[i..i + n];
    ContainsAt(t, f, i);
  }

  /** Text put in right before a section break cannot split a name. */
  lemma BreakKeepsName(content: string, f: string, cut: nat, x: string)
    requires Whole(f) && Contains(content, f) && OccursAt(content, "\n## ", cut)
    ensures Contains(content[..cut] + x + content[cut..], f)
  {
    var i :| 0 <= i <= |content| && OccursAt(content, f, i);
    var n := |f|;
    var after := content[..cut] + x + content[cut..];
    if i + n <= cut {
      assert after[i..i + n] == content[i..i + n];
      ContainsAt(after, f, i);
    } else if i >= cut {
      assert after[i + |x|..i + |x| + n] == content[i..i + n];
      ContainsAt(after, f, i + |x|);
    } else {
      NoSpan(content, f, i, cut);
    }
  }

  lemma NoSpan(content: string, f: string, i: nat, cut: nat)
    requires f != [] && !IsSpace(f[|f| - 1]) && f[|f| - 1] != '#'
    requires OccursAt(content, f, i) && OccursAt(content, "\n## ", cut)
    requires i < cut < i + |f|
    ensures Contains(f, "\n## ")
  {
    var j, n := cut - i, |f|;
    forall q | j <= q < n && q < j + 4 ensures f[q] == "\n## "[q - j] && f[q] in "\n# " {
      assert content[cut..cut + 4][q - j] == content[i + q];
      assert content[i..i + n][q] == content[i + q];
    }
    assert f[j..j + 4] == "\n## ";
    ContainsAt(f, "\n## ", j);
  }

  /** No insertion reopens a closed pair. */
  lemma InsertKeepsName(content: string, entry: string, f: string)
    requires Whole(f) && Contains(content, f)
    ensures Contains(InsertEntry(content, entry), f)
  {
    var atEnd, cut, x := InsertShape(content, entry);
    if atEnd {
      TrimKeepsName(content, f);
      ContainsAppend(TrimEnd(content), x, f);
    } else {
      BreakKeepsName(content, f, cut, x);
    }
  }

  lemma {:induction false} InsertAllKeepsName(content: string, gaps: seq<Gap>, date: string, f: string)
    requires Whole(f) && Contains(content, f)
    ensures Contains(InsertAll(content, gaps, date), f)
  {
    if gaps != [] {
      InsertAllKeepsName(content, gaps[..|gaps| - 1], date, f);
      InsertKeepsName(InsertAll(content, gaps[..|gaps| - 1], date), EntryFor(gaps[|gaps| - 1], date), f);
    }
  }

  lemma {:induction false} InsertAllNames(content: string, gaps: seq<Gap>, date: string, g: Gap)
    requires g in gaps && Whole(Basename(g.sourcePage))
    ensures Contains(InsertAll(content, gaps, date), Basename(g.sourcePage))
  {
    var m := |gaps| - 1;
    var before := InsertAll(content, gaps[..m], date);
    if g == gaps[m] {
      var entry := EntryFor(g, date);
      InsertedIsThere(before, entry);
      EntryNamesSource(g, date);
      ContainsTrans(InsertEntry(before, entry), entry, Basename(g.sourcePage));
    } else {
      InsertAllNames(content, gaps[..m], date, g);
      InsertKeepsName(before, EntryFor(gaps[m], date), Basename(g.sourcePage));
    }
  }

  // ---------------------------------------------------------------- one fix

  lemma {:induction false} GapsForMember(gaps: seq<Gap>, g: Gap)
    requires g in gaps
    ensures g in GapsFor(gaps, g.targetPage)
  {
    var m := |gaps| - 1;
    if g != gaps[m] {
      GapsForMember(gaps[..m], g);
    }
  }

  /** A fix closes every listed gap whose target exists, whatever else it writes there. */
  lemma FixClosesListed(pages: Pages, gaps: seq<Gap>, date: string, g: Gap)
    requires g in gaps && g.targetPage in pages && PlainName(g.sourcePage)
    ensures Closed(FixSpec(pages, gaps, date), g.sourcePage, g.targetPage)
  {
    GapsForMember(gaps, g);
    GoodName(g.sourcePage);
    InsertAllNames(pages[g.targetPage], GapsFor(gaps, g.targetPage), date, g);
  }

  /** A fix, of any list of gaps, reopens nothing. */
  lemma FixReopensNothing(pages: Pages, gaps: seq<Gap>, date: string, source: string, target: string)
    requires target in pages && PlainName(source) && Closed(pages, source, target)
    ensures Closed(FixSpec(pages, gaps, date), source, target)
  {
    GoodName(source);
    InsertAllKeepsName(pages[target], GapsFor(gaps, target), date, Basename(source));
  }

  lemma InsertSurvives(a: string, content: string, entry: string)
    requires Survives(a, content) && (a != [] ==> !IsSpace(a[|a| - 1]))
    ensures Survives(a, InsertEntry(content, entry))
  {
    var atEnd, cut, x := InsertShape(content, entry);
    if atEnd {
      SurvivesTrim(a, content);
      SurvivesAppend(a, TrimEnd(content), x);
    } else {
      assert content == content[..cut] + content[cut..];
      SurvivesInsert(a, content[..cut], x, content[cut..]);
    }
  }

  lemma {:induction false} InsertAllSurvives(a: string, content: string, gaps: seq<Gap>, date: string)
    requires Survives(a, content) && (a != [] ==> !IsSpace(a[|a| - 1]))
    ensures Survives(a, InsertAll(content, gaps, date))
  {
    if gaps != [] {
      InsertAllSurvives(a, content, gaps[..|gaps| - 1], date);
      InsertSurvives(a, InsertAll(content, gaps[..|gaps| - 1], date), EntryFor(gaps[|gaps| - 1], date));
    }
  }

  lemma {:induction false} TrimSurvives(s: string)
    ensures Survives(TrimEnd(s), s)
  {
    if s != [] && IsSpace(s[|s| - 1]) {
      TrimSurvives(s[..|s| - 1]);
    } else {
      SurvivesSelf(s);
    }
  }

  /** No text is lost: up to trailing white space every page survives, in order. */
  lemma FixKeepsText(pages: Pages, gaps: seq<Gap>, date: string, page: string)
    requires page in pages
    ensures Survives(TrimEnd(pages[page]), FixSpec(pages, gaps, date)[page])
  {
    TrimSurvives(pages[page]);
    InsertAllSurvives(TrimEnd(pages[page]), pages[page], GapsFor(gaps, page), date);
  }

  // ---------------------------------------------------------------- what is found

  /** `source` mentions `target`, a page, and is not named there. */
  ghost predicate Missing(reader: Reader, pages: Pages, source: string, target: string) {
    && source in pages && target in pages && !Closed(pages, source, target)
    && exists r | r in EntityRefs(reader, pages[source]) :: TargetSlug(r) + ".md" == target
  }

  ghost predicate Reported(gaps: seq<Gap>, source: string, target: string) {
    exists g | g in gaps :: g.sourcePage == source && g.targetPage == target
  }

  /** The slug index finds exactly the person's or company's page the slug names. */
  ghost predicate Faithful(lookup: map<string, string>, pages: Pages) {
    && (forall s | s in lookup :: lookup[s] in pages)
    && (forall s | s in lookup && IsEntity(s) :: lookup[s] == s + ".md")
    && (forall s | s + ".md" in pages && IsEntity(s) :: s in lookup)
  }

  lemma SlugRoundTrip(a: string, b: string)
    requires a + ".md" == b + ".md"
    ensures a == b
  {
    assert a == (a + ".md")[..|a + ".md"| - 3];
    assert b == (b + ".md")[..|b + ".md"| - 3];
  }

  lemma SlugKeepsStart(path: string, start: string)
    requires StartsWith(path, start) && '.' !in start
    ensures StartsWith(SlugOf(path), start)
  {
    var at := IndexOf(path, ".md", 0);
    if at.Some? {
      assert path[at.value] == path[at.value..at.value + 3][0] == '.';
      assert at.value >= |start|;
      assert path[..at.value][..|start|] == path[..|start|];
    }
  }

  lemma EntityKeepsSlug(slug: string)
    requires IsEntity(slug)
    ensures IsEntity(SlugOf(slug + ".md"))
  {
    var path := slug + ".md";
    var start := if StartsWith(slug, "people/") then "people/" else "companies/";
    assert path[..|start|] == slug[..|start|];
    SlugKeepsStart(path, start);
  }

  lemma IndexFaithful(pages: Pages, order: seq<string>)
    requires Lists(order, pages) && SlugsLeadBack(pages)
    ensures Faithful(BySlug(order), pages)
  {
    BySlugKnown(order);
    forall s | s + ".md" in pages && IsEntity(s) ensures s in BySlug(order) {
      assert SlugLeadsBack(s + ".md");
      EntityKeepsSlug(s);
      SlugRoundTrip(SlugOf(s + ".md"), s);
    }
    forall s | s in BySlug(order) && IsEntity(s) ensures BySlug(order)[s] == s + ".md" {
      assert SlugLeadsBack(BySlug(order)[s]);
    }
  }

  lemma {:induction false} KeptEntities(refs: seq<Ref>)
    ensures forall r | r in KeepEntities(refs) :: IsEntity(TargetSlug(r))
  {
    if refs != [] {
      var front, last := refs[..|refs| - 1], refs[|refs| - 1];
      KeptEntities(front);
      assert StripDir(last).dir == last.dir;
      assert (last.dir + "/" + StripDir(last).slug)[..|last.dir| + 1] == last.dir + "/";
    }
  }

  ghost predicate PageMissing(pages: Pages, refs: seq<Ref>, page: string, target: string) {
    && target in pages && !Closed(pages, page, target)
    && exists r | r in refs :: TargetSlug(r) + ".md" == target
  }

  lemma {:induction false} PageGapsExact(reader: Reader, pages: Pages, lookup: map<string, string>, page: string, refs: seq<Ref>,
                                         target: string)
    requires page in pages && Faithful(lookup, pages) && forall r | r in refs :: IsEntity(TargetSlug(r))
    ensures Reported(PageGaps(reader, pages, lookup, page, refs), page, target) <==> PageMissing(pages, refs, page, target)
    ensures forall g | g in PageGaps(reader, pages, lookup, page, refs) :: g.sourcePage == page
  {
    if refs != [] {
      var front, last := refs[..|refs| - 1], refs[|refs| - 1];
      PageGapsExact(reader, pages, lookup, page, front, target);
      assert refs == front + [last];
      var slug := TargetSlug(last);
      assert forall r :: r in refs <==> r in front || r == last;
      if slug in SeenSlugs(front) {
        var r :| r in front && TargetSlug(r) == slug;
      }
    }
  }

  lemma {:induction false} AllGapsExact(reader: Reader, pages: Pages, lookup: map<string, string>, order: seq<string>,
                                        source: string, target: string)
    requires (forall p | p in order :: p in pages) && Faithful(lookup, pages)
    ensures Reported(AllGaps(reader, pages, lookup, order), source, target) <==>
            source in order && Missing(reader, pages, source, target)
  {
    if order != [] {
      var m := |order| - 1;
      AllGapsExact(reader, pages, lookup, order[..m], source, target);
      var refs := EntityRefs(reader, pages[order[m]]);
      KeptEntities(reader.extract(pages[order[m]]));
      PageGapsExact(reader, pages, lookup, order[m], refs, target);
      assert order == order[..m] + [order[m]];
      ReportedConcat(AllGaps(reader, pages, lookup, order[..m]), PageGaps(reader, pages, lookup, order[m], refs), source, target);
    }
  }

  lemma ReportedConcat(a: seq<Gap>, b: seq<Gap>, source: string, target: string)
    ensures Reported(a + b, source, target) <==> Reported(a, source, target) || Reported(b, source, target)
  {
  }

  /** The finder reports exactly the missing pairs. */
  lemma FindExact(reader: Reader, pages: Pages, order: seq<string>, source: string, target: string)
    requires Lists(order, pages) && SlugsLeadBack(pages)
    ensures Reported(FindSpec(reader, pages, order), source, target) <==> Missing(reader, pages, source, target)
  {
    BySlugKnown(order);
    IndexFaithful(pages, order);
    AllGapsExact(reader, pages, BySlug(order), order, source, target);
  }

  ghost predicate PairsDistinct(gaps: seq<Gap>) {
    forall i, j | 0 <= i < j < |gaps| ::
      gaps[i].sourcePage != gaps[j].sourcePage || gaps[i].targetPage != gaps[j].targetPage
  }

  lemma {:induction false} PageGapsOnce(reader: Reader, pages: Pages, lookup: map<string, string>, page: string, refs: seq<Ref>)
    requires page in pages && forall s | s in lookup :: lookup[s] in pages
    ensures var gaps := PageGaps(reader, pages, lookup, page, refs);
            && PairsDistinct(gaps)
            && forall g | g in gaps :: g.sourcePage == page && exists r | r in refs :: g.targetPage == TargetSlug(r) + ".md"
  {
    if refs != [] {
      var front, last := refs[..|refs| - 1], refs[|refs| - 1];
      PageGapsOnce(reader, pages, lookup, page, front);
      assert refs == front + [last];
      var before := PageGaps(reader, pages, lookup, page, front);
      if TargetSlug(last) !in SeenSlugs(front) {
        forall i | 0 <= i < |before| ensures before[i].targetPage != TargetSlug(last) + ".md" {
          assert before[i] in before;
          var r :| r in front && before[i].targetPage == TargetSlug(r) + ".md";
          if TargetSlug(r) + ".md" == TargetSlug(last) + ".md" {
            SlugRoundTrip(TargetSlug(r), TargetSlug(last));
          }
        }
      }
    }
  }

  lemma {:induction false} AllGapsOnce(reader: Reader, pages: Pages, lookup: map<string, string>, order: seq<string>)
    requires (forall p | p in order :: p in pages) && (forall s | s in lookup :: lookup[s] in pages) && Distinct(order)
    ensures var gaps := AllGaps(reader, pages, lookup, order);
            PairsDistinct(gaps) && forall g | g in gaps :: g.sourcePage in order
  {
    if order != [] {
      var m := |order| - 1;
      AllGapsOnce(reader, pages, lookup, order[..m]);
      PageGapsOnce(reader, pages, lookup, order[m], EntityRefs(reader, pages[order[m]]));
      assert order == order[..m] + [order[m]];
      var a := AllGaps(reader, pages, lookup, order[..m]);
      var b := PageGaps(reader, pages, lookup, order[m], EntityRefs(reader, pages[order[m]]));
      forall i, j | 0 <= i < |a| && 0 <= j < |b| ensures a[i].sourcePage != b[j].sourcePage {
        assert a[i] in a && b[j] in b;
        assert order[m] !in order[..m];
      }
    }
  }

  /** However often a page mentions an entity, the pair is reported once. */
  lemma FindOncePerPair(reader: Reader, pages: Pages, order: seq<string>)
    requires Lists(order, pages)
    ensures PairsDistinct(FindSpec(reader, pages, order))
  {
    BySlugKnown(order);
    AllGapsOnce(reader, pages, BySlug(order), order);
  }

  // ---------------------------------------------------------------- rounds

  /** One run of `check-backlinks fix`: an order of the walk and a date. */
  datatype Walk = Walk(order: seq<string>, date: string)

  function Round(reader: Reader, pages: Pages, walk: Walk): (after: Pages)
    requires Lists(walk.order, pages)
    ensures after.Keys == pages.Keys
  {
    FixSpec(pages, FindSpec(reader, pages, walk.order), walk.date)
  }

  ghost predicate AllList(walks: seq<Walk>, pages: Pages) {
    forall i | 0 <= i < |walks| :: Lists(walks[i].order, pages)
  }

  function Rounds(reader: Reader, pages: Pages, walks: seq<Walk>): (after: Pages)
    requires AllList(walks, pages)
    ensures after.Keys == pages.Keys
  {
    if walks == [] then pages
    else
      var m := |walks| - 1;
      Round(reader, Rounds(reader, pages, walks[..m]), walks[m])
  }

  ghost function OpenPairs(pages: Pages): set<(string, string)> {
    set s, t | s in pages.Keys && t in pages.Keys && !Contains(pages[t], Basename(s)) :: (s, t)
  }

  lemma FixOpensNothing(pages: Pages, gaps: seq<Gap>, date: string)
    requires PlainNames(pages)
    ensures OpenPairs(FixSpec(pages, gaps, date)) <= OpenPairs(pages)
  {
    forall s, t | (s, t) in OpenPairs(FixSpec(pages, gaps, date)) ensures (s, t) in OpenPairs(pages) {
      if Closed(pages, s, t) {
        FixReopensNothing(pages, gaps, date, s, t);
      }
    }
  }

  lemma RoundCloses(reader: Reader, pages: Pages, walk: Walk)
    requires Lists(walk.order, pages) && GoodPages(pages) && FindSpec(reader, pages, walk.order) != []
    ensures OpenPairs(Round(reader, pages, walk)) < OpenPairs(pages)
  {
    var gaps := FindSpec(reader, pages, walk.order);
    var g := gaps[0];
    FixOpensNothing(pages, gaps, walk.date);
    assert g in gaps && Reported(gaps, g.sourcePage, g.targetPage);
    FindExact(reader, pages, walk.order, g.sourcePage, g.targetPage);
    assert (g.sourcePage, g.targetPage) in OpenPairs(pages);
    FixClosesListed(pages, gaps, walk.date, g);
    assert (g.sourcePage, g.targetPage) !in OpenPairs(FixSpec(pages, gaps, walk.date));
  }

  /** With nothing to fix a round changes nothing. */
  lemma IdleRound(reader: Reader, pages: Pages, walk: Walk)
    requires Lists(walk.order, pages) && FindSpec(reader, pages, walk.order) == []
    ensures Round(reader, pages, walk) == pages
  {
  }

  lemma SmallerSet<T>(a: set<T>, b: set<T>)
    requires a < b
    ensures |a| < |b|
  {
    var x :| x in b && x !in a;
    SubsetSize(a + {x}, b);
  }

  /** Nothing is missing any more, in whatever order the pages are walked. */
  ghost predicate Settled(reader: Reader, pages: Pages) {
    forall s, t :: !Missing(reader, pages, s, t)
  }

  lemma SettledIffNoGaps(reader: Reader, pages: Pages, order: seq<string>)
    requires Lists(order, pages) && SlugsLeadBack(pages)
    ensures Settled(reader, pages) <==> FindSpec(reader, pages, order) == []
  {
    var gaps := FindSpec(reader, pages, order);
    forall s, t ensures Reported(gaps, s, t) <==> Missing(reader, pages, s, t) {
      FindExact(reader, pages, order, s, t);
    }
    if gaps != [] {
      assert Reported(gaps, gaps[0].sourcePage, gaps[0].targetPage);
    }
  }

  lemma {:induction false} RoundsSpend(reader: Reader, pages: Pages, walks: seq<Walk>)
    requires AllList(walks, pages) && GoodPages(pages)
    ensures var after := Rounds(reader, pages, walks);
            Settled(reader, after) || |OpenPairs(after)| + |walks| <= |OpenPairs(pages)|
  {
    if walks != [] {
      var m := |walks| - 1;
      RoundsSpend(reader, pages, walks[..m]);
      var before := Rounds(reader, pages, walks[..m]);
      SettledIffNoGaps(reader, before, walks[m].order);
      if FindSpec(reader, before, walks[m].order) != [] {
        RoundCloses(reader, before, walks[m]);
        SmallerSet(OpenPairs(Round(reader, before, walks[m])), OpenPairs(before));
      } else {
        IdleRound(reader, before, walks[m]);
      }
    }
  }

  ghost function Row(a: string, bs: set<string>): set<(string, string)> {
    set b | b in bs :: (a, b)
  }

  ghost function Square(as': set<string>, bs: set<string>): set<(string, string)> {
    set a, b | a in as' && b in bs :: (a, b)
  }

  lemma {:induction false} RowSize(a: string, bs: set<string>)
    ensures |Row(a, bs)| == |bs|
    decreases bs
  {
    if bs != {} {
      var b :| b in bs;
      RowSize(a, bs - {b});
      assert Row(a, bs) == Row(a, bs - {b}) + {(a, b)};
    } else {
      assert Row(a, bs) == {};
    }
  }

  lemma {:induction false} SquareSize(as': set<string>, bs: set<string>)
    ensures |Square(as', bs)| == |as'| * |bs|
    decreases as'
  {
    if as' != {} {
      var a :| a in as';
      var rest := as' - {a};
      SquareSize(rest, bs);
      RowSize(a, bs);
      assert Square(as', bs) == Square(rest, bs) + Row(a, bs);
      assert |as'| == |rest| + 1;
      assert (|rest| + 1) * |bs| == |rest| * |bs| + |bs|;
    } else {
      assert Square(as', bs) == {};
    }
  }

  lemma SettledWhenClosed(reader: Reader, pages: Pages)
    requires OpenPairs(pages) == {}
    ensures Settled(reader, pages)
  {
    forall s, t ensures !Missing(reader, pages, s, t) {
      assert (s, t) !in OpenPairs(pages);
    }
  }

  /** With N pages, N * N rounds of find-then-fix leave nothing missing, whatever
      references the written entries themselves create. */
  lemma RepairConverges(reader: Reader, pages: Pages, walks: seq<Walk>, order: seq<string>)
    requires AllList(walks, pages) && Lists(order, pages) && GoodPages(pages)
    requires |walks| >= |pages.Keys| * |pages.Keys|
    ensures FindSpec(reader, Rounds(reader, pages, walks), order) == []
  {
    var after := Rounds(reader, pages, walks);
    RoundsSpend(reader, pages, walks);
    SquareSize(pages.Keys, pages.Keys);
    assert OpenPairs(pages) <= Square(pages.Keys, pages.Keys);
    SubsetSize(OpenPairs(pages), Square(pages.Keys, pages.Keys));
    if OpenPairs(after) == {} {
      SettledWhenClosed(reader, after);
    }
    SettledIffNoGaps(reader, after, order);
  }

  // ---------------------------------------------------------------- where it stops working

  function DirOf(slug: string): string {
    if StartsWith(slug, "people/") then "people" else "companies"
  }

  /** An extractor that finds one mention of `slug` in every page. */
  function Mentions(slug: string): Reader {
    Reader((content: string) => [Ref("", slug, DirOf(slug))], (content: string) => "")
  }

  lemma MentionsSlug(slug: string, content: string) returns (r: Ref)
    requires IsEntity(slug)
    ensures EntityRefs(Mentions(slug), content) == [r] && TargetSlug(r) == slug
  {
    var found := Ref("", slug, DirOf(slug));
    r := StripDir(found);
    assert [found][|[found]| - 1] == found && [found][..|[found]| - 1] == [] && KeepEntities([]) == [];
    assert KeepEntities([found]) == [r];
    var start := DirOf(slug) + "/";
    assert slug == slug[..|start|] + slug[|start|..];
  }

  lemma {:induction false} AllTargets(pages: Pages, lookup: map<string, string>, order: seq<string>, slug: string)
    requires (forall p | p in order :: p in pages) && (forall s | s in lookup :: lookup[s] in pages) && IsEntity(slug)
    ensures forall g | g in AllGaps(Mentions(slug), pages, lookup, order) :: g.targetPage == slug + ".md"
  {
    if order != [] {
      var m := |order| - 1;
      AllTargets(pages, lookup, order[..m], slug);
      var r := MentionsSlug(slug, pages[order[m]]);
      PageGapsOnce(Mentions(slug), pages, lookup, order[m], [r]);
    }
  }

  /** A page whose own slug leads elsewhere is never written for mentions of that slug. */
  lemma MisnamedUntouched(pages: Pages, walk: Walk, page: string)
    requires Lists(walk.order, pages) && page in pages
    requires IsEntity(SlugOf(page)) && SlugOf(page) + ".md" != page
    ensures Round(Mentions(SlugOf(page)), pages, walk)[page] == pages[page]
  {
    BySlugKnown(walk.order);
    AllTargets(pages, BySlug(walk.order), walk.order, SlugOf(page));
    NoGapsFor(FindSpec(Mentions(SlugOf(page)), pages, walk.order), page);
  }

  lemma MisnamedReported(pages: Pages, order: seq<string>, page: string)
    requires Lists(order, pages) && page in pages && PlainName(page) && pages[page] == ""
    requires IsEntity(SlugOf(page)) && order[|order| - 1..] == [page]
    ensures Reported(FindSpec(Mentions(SlugOf(page)), pages, order), page, SlugOf(page) + ".md")
  {
    var slug, m := SlugOf(page), |order| - 1;
    BySlugKnown(order);
    BasenameTail(page);
    assert order[m] == page;
    assert BySlug(order)[slug] == page && !HasBacklink("", Basename(page));
    var r := MentionsSlug(slug, pages[page]);
    assert [r][..0] == [] && [r][|[r]| - 1] == r && PageGaps(Mentions(slug), pages, BySlug(order), page, []) == [];
    var gap := Gap(page, slug + ".md", r.name, "");
    assert PageGaps(Mentions(slug), pages, BySlug(order), page, [r]) == [gap];
    assert gap in FindSpec(Mentions(slug), pages, order);
  }

  /** Such a gap stays for ever: after any number of rounds a blank page that mentions itself under a slug
      that leads elsewhere is still reported. */
  lemma {:induction false} MisnamedTargetsStay(pages: Pages, walks: seq<Walk>, order: seq<string>, page: string)
    requires AllList(walks, pages) && Lists(order, pages) && page in pages && PlainName(page) && pages[page] == ""
    requires IsEntity(SlugOf(page)) && SlugOf(page) + ".md" != page && order[|order| - 1..] == [page]
    ensures var reader := Mentions(SlugOf(page));
            var after := Rounds(reader, pages, walks);
            after[page] == "" && Reported(FindSpec(reader, after, order), page, SlugOf(page) + ".md")
  {
    if walks != [] {
      var m := |walks| - 1;
      MisnamedTargetsStay(pages, walks[..m], order, page);
      MisnamedUntouched(Rounds(Mentions(SlugOf(page)), pages, walks[..m]), walks[m], page);
    }
    MisnamedReported(Rounds(Mentions(SlugOf(page)), pages, walks), order, page);
  }

  lemma {:induction false} ListNames(names: set<string>) returns (order: seq<string>)
    ensures Distinct(order) && forall p :: p in order <==> p in names
    decreases names
  {
    if names == {} {
      order := [];
    } else {
      var p :| p in names;
      var rest := ListNames(names - {p});
      order := rest + [p];
    }
  }

  /** Whatever the pages hold, whatever the extractor finds and however they are walked, N * N rounds leave
      no gap. */
  ghost predicate AlwaysConverge(names: set<string>, reader: Reader) {
    forall pages: Pages, walks, order |
      pages.Keys == names && AllList(walks, pages) && Lists(order, pages) && |walks| >= |names| * |names| ::
      FindSpec(reader, Rounds(reader, pages, walks), order) == []
  }

  lemma LastInWalk(names: set<string>, page: string) returns (order: seq<string>)
    requires page in names
    ensures Distinct(order) && (forall p :: p in order <==> p in names)
    ensures order != [] && order[|order| - 1..] == [page]
  {
    var others := ListNames(names - {page});
    order := others + [page];
  }

  lemma SameWalk(pages: Pages, order: seq<string>, rounds: nat) returns (walks: seq<Walk>)
    requires Lists(order, pages)
    ensures |walks| == rounds && AllList(walks, pages)
  {
    walks := seq(rounds, _ => Walk(order, ""));
  }

  lemma BlankPages(names: set<string>) returns (pages: Pages)
    ensures pages.Keys == names && forall n | n in names :: pages[n] == ""
  {
    pages := map n | n in names :: "";
  }

  lemma MisnamedDiverges(names: set<string>, page: string)
    requires page in names && PlainName(page) && !SlugLeadsBack(page)
    ensures !AlwaysConverge(names, Mentions(SlugOf(page)))
  {
    var pages := BlankPages(names);
    var order := LastInWalk(names, page);
    var walks := SameWalk(pages, order, |names| * |names|);
    MisnamedTargetsStay(pages, walks, order, page);
    assert FindSpec(Mentions(SlugOf(page)), Rounds(Mentions(SlugOf(page)), pages, walks), order) != [];
  }

  /** Exactly which page names let every extractor converge: those where the slug of every person's and
      company's page leads back to it. */
  lemma ConvergeIffSlugsLeadBack(names: set<string>)
    requires forall p | p in names :: PlainName(p)
    ensures (forall reader :: AlwaysConverge(names, reader)) <==> forall p | p in names :: SlugLeadsBack(p)
  {
    if forall p | p in names :: SlugLeadsBack(p) {
      forall reader, pages: Pages, walks, order |
        pages.Keys == names && AllList(walks, pages) && Lists(order, pages) && |walks| >= |names| * |names|
        ensures FindSpec(reader, Rounds(reader, pages, walks), order) == []
      {
        assert forall p | p in pages :: p in names;
        RepairConverges(reader, pages, walks, order);
      }
    } else {
      var page :| page in names && !SlugLeadsBack(page);
      MisnamedDiverges(names, page);
    }
  }

  lemma {:induction false} NoGapsFor(gaps: seq<Gap>, t: string)
    requires forall g | g in gaps :: g.targetPage != t
    ensures GapsFor(gaps, t) == []
  {
    if gaps != [] {
      assert gaps[|gaps| - 1] in gaps;
      NoGapsFor(gaps[..|gaps| - 1], t);
    }
  }
}
