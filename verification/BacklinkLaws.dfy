/** What the back-link commands write and report, told in pages, references and links. */
module BacklinkLaws {
  import opened Results
  import opened Text
  import opened Backlinks
  import opened BacklinkRepair

  // ---------------------------------------------------------------- links

  /** The directory of a page, with its final slash; empty for a page at the top. */
  function DirOf(path: string): string {
    if path == [] || path[|path| - 1] == '/' then path else DirOf(path[..|path| - 1])
  }

  /** The directory a level up. */
  function Up(dir: string): string
    requires dir != []
  {
    DirOf(dir[..|dir| - 1])
  }

  /** Where a relative link leads: each leading `../` drops one directory, and past the top it leads nowhere. */
  function Resolve(dir: string, link: string): Option<string>
    decreases |link|
  {
    if StartsWith(link, "../") then if dir == [] then None else Resolve(Up(dir), link[3..])
    else Some(dir + link)
  }

  ghost predicate IsDir(dir: string) {
    dir == [] || dir[|dir| - 1] == '/'
  }

  lemma {:induction false} DirShape(path: string)
    ensures IsDir(DirOf(path)) && Depth(DirOf(path)) == Depth(path)
  {
    if path != [] && path[|path| - 1] != '/' {
      DirShape(path[..|path| - 1]);
    }
  }

  lemma UpShape(dir: string)
    requires IsDir(dir) && dir != []
    ensures IsDir(Up(dir)) && Depth(dir) == Depth(Up(dir)) + 1
  {
    DirShape(dir[..|dir| - 1]);
  }

  lemma TopHasNoDepth(dir: string)
    requires IsDir(dir)
    ensures dir == [] <==> Depth(dir) == 0
  {
  }

  lemma UpDirsCons(depth: nat, rest: string)
    requires depth > 0
    ensures StartsWith(UpDirs(depth) + rest, "../") && (UpDirs(depth) + rest)[3..] == UpDirs(depth - 1) + rest
  {
    assert UpDirs(depth) + rest == "../" + (UpDirs(depth - 1) + rest);
  }

  lemma {:induction false} ClimbsToTop(dir: string, depth: nat, page: string)
    requires IsDir(dir) && Depth(dir) == depth && !StartsWith(page, "../")
    ensures Resolve(dir, UpDirs(depth) + page) == Some(page)
    decreases depth
  {
    TopHasNoDepth(dir);
    if depth == 0 {
      assert UpDirs(0) + page == page && [] + page == page;
    } else {
      UpShape(dir);
      UpDirsCons(depth, page);
      ClimbsToTop(Up(dir), depth - 1, page);
    }
  }

  /** The line a gap calls for: the date, the source's title, and a link that leads from the target page to the
      source page. */
  ghost predicate BacklinkLine(line: string, gap: Gap, date: string) {
    exists link ::
      && line == "- **" + date + "** | Referenced in [" + gap.sourceTitle + "](" + link + ")"
      && Resolve(DirOf(gap.targetPage), link) == Some(gap.sourcePage)
  }

  lemma EntryIsBacklink(gap: Gap, date: string)
    requires !StartsWith(gap.sourcePage, "../")
    ensures BacklinkLine(EntryFor(gap, date), gap, date)
  {
    DirShape(gap.targetPage);
    ClimbsToTop(DirOf(gap.targetPage), Depth(gap.targetPage), gap.sourcePage);
    var link := UpDirs(Depth(gap.targetPage)) + gap.sourcePage;
    assert EntryFor(gap, date) == "- **" + date + "** | Referenced in [" + gap.sourceTitle + "](" + link + ")";
  }

  lemma {:induction false} InsertAllWrites(content: string, gaps: seq<Gap>, date: string, g: Gap)
    requires g in gaps && Whole(EntryFor(g, date))
    ensures Contains(InsertAll(content, gaps, date), EntryFor(g, date))
  {
    var m := |gaps| - 1;
    var before := InsertAll(content, gaps[..m], date);
    if g == gaps[m] {
      InsertedIsThere(before, EntryFor(g, date));
    } else {
      InsertAllWrites(content, gaps[..m], date, g);
      InsertKeepsName(before, EntryFor(gaps[m], date), EntryFor(g, date));
    }
  }

  /** After a fix the page of every listed gap holds that gap's line, with a link that resolves, as long as title
      and date bring no section break with them. */
  lemma FixWritesLinks(pages: Pages, gaps: seq<Gap>, date: string, g: Gap) returns (line: string)
    requires g in gaps && g.targetPage in pages && !StartsWith(g.sourcePage, "../")
    requires !Contains(EntryFor(g, date), "\n## ")
    ensures BacklinkLine(line, g, date) && Contains(FixSpec(pages, gaps, date)[g.targetPage], line)
  {
    line := EntryFor(g, date);
    EntryIsBacklink(g, date);
    GapsForMember(gaps, g);
    assert line[|line| - 1] == ')';
    InsertAllWrites(pages[g.targetPage], GapsFor(gaps, g.targetPage), date, g);
  }

  // ---------------------------------------------------------------- where the line goes

  ghost predicate FirstAt(content: string, text: string, from: nat, at: nat) {
    from <= at && OccursAt(content, text, at) && forall k | from <= k < at :: !OccursAt(content, text, k)
  }

  lemma FoundFirst(content: string, text: string, from: nat, at: nat)
    requires FirstAt(content, text, from, at)
    ensures IndexOf(content, text, from) == Some(at)
  {
  }

  /** A page without a timeline gets one at its end. */
  lemma NewTimeline(content: string, entry: string)
    requires !Contains(content, "## Timeline")
    ensures InsertEntry(content, entry) == TrimEnd(content) + "\n\n## Timeline\n\n" + entry + "\n"
  {
  }

  /** The first timeline heading stands at `at`, and the text it heads ends at `end`, where the next timeline
      heading or the end of the page is. */
  ghost predicate TimelineText(content: string, at: nat, end: nat) {
    && FirstAt(content, "## Timeline", 0, at) && at + 11 <= end <= |content|
    && (end == |content| || OccursAt(content, "## Timeline", end))
    && forall k | at + 11 <= k < end :: !OccursAt(content, "## Timeline", k)
  }

  lemma TimelineEnds(content: string, at: nat, end: nat)
    requires TimelineText(content, at, end)
    ensures Contains(content, "## Timeline") && IndexOf(content, "## Timeline", 0) == Some(at)
    ensures end == match IndexOf(content, "## Timeline", at + 11) case Some(e) => e case None => |content|
  {
    ContainsAt(content, "## Timeline", at);
    FoundFirst(content, "## Timeline", 0, at);
  }

  /** With a section within that text the line goes right before it. */
  lemma BeforeNextSection(content: string, entry: string, at: nat, end: nat, i: nat)
    requires TimelineText(content, at, end) && FirstAt(content, "\n## ", at + 11, i) && i + 4 <= end
    ensures InsertEntry(content, entry) == content[..i] + "\n" + entry + content[i..]
  {
    TimelineEnds(content, at, end);
    InPrefix(content, end, at + 11, i);
    FoundFirst(content[..end], "\n## ", at + 11, i);
  }

  lemma InPrefix(content: string, end: nat, from: nat, i: nat)
    requires i + 4 <= end <= |content| && FirstAt(content, "\n## ", from, i)
    ensures FirstAt(content[..end], "\n## ", from, i)
  {
    assert content[..end][i..i + 4] == content[i..i + 4];
    forall k | from <= k < i ensures !OccursAt(content[..end], "\n## ", k) {
      if OccursAt(content[..end], "\n## ", k) {
        PrefixOccurs(content, end, "\n## ", k);
      }
    }
  }

  /** With none it goes to the end of the page. */
  lemma AtTheEnd(content: string, entry: string, at: nat, end: nat)
    requires TimelineText(content, at, end) && forall k | at + 11 <= k <= end - 4 :: !OccursAt(content, "\n## ", k)
    ensures InsertEntry(content, entry) == TrimEnd(content) + "\n" + entry + "\n"
  {
    TimelineEnds(content, at, end);
    var found := IndexOf(content[..end], "\n## ", at + 11);
    if found.Some? {
      PrefixOccurs(content, end, "\n## ", found.value);
      assert false;
    }
    assert NextSection(content).None?;
  }

  // ---------------------------------------------------------------- what is reported

  /** The page of a person or a company that a found reference stands for. */
  ghost predicate StandsFor(r: Ref, page: string) {
    && (r.dir == "people" || r.dir == "companies")
    && page == (if StartsWith(r.slug, r.dir + "/") then r.slug else r.dir + "/" + r.slug) + ".md"
  }

  ghost predicate SomeStandsFor(refs: seq<Ref>, page: string) {
    exists i | 0 <= i < |refs| :: StandsFor(refs[i], page)
  }

  lemma KeptTarget(r: Ref)
    ensures TargetSlug(StripDir(r)) == if StartsWith(r.slug, r.dir + "/") then r.slug else r.dir + "/" + r.slug
  {
    var start := r.dir + "/";
    if StartsWith(r.slug, start) {
      assert r.slug == r.slug[..|start|] + r.slug[|start|..];
    }
  }

  lemma {:induction false} KeptStandFor(refs: seq<Ref>, page: string)
    ensures (exists r | r in KeepEntities(refs) :: TargetSlug(r) + ".md" == page) <==>
            SomeStandsFor(refs, page)
  {
    if refs != [] {
      var m := |refs| - 1;
      var front, last := refs[..m], refs[m];
      KeptStandFor(front, page);
      KeptTarget(last);
      SplitLast(refs, page);
      if last.dir == "people" || last.dir == "companies" {
        var kept := KeepEntities(front);
        var all := kept + [StripDir(last)];
        assert KeepEntities(refs) == all;
        assert forall r :: r in all <==> r in kept || r == StripDir(last);
      }
    }
  }

  lemma SplitLast(refs: seq<Ref>, page: string)
    requires refs != []
    ensures SomeStandsFor(refs, page) <==> SomeStandsFor(refs[..|refs| - 1], page) || StandsFor(refs[|refs| - 1], page)
  {
    var front, last := refs[..|refs| - 1], refs[|refs| - 1];
    if SomeStandsFor(front, page) {
      var i :| 0 <= i < |front| && StandsFor(front[i], page);
      assert StandsFor(refs[i], page);
    }
    if SomeStandsFor(refs, page) && !StandsFor(last, page) {
      var i :| 0 <= i < |refs| && StandsFor(refs[i], page);
      assert StandsFor(front[i], page);
    }
  }

  /** A pair is reported iff both are pages, some reference the extractor finds in the source stands for the
      target, and the target does not hold the source's file name. */
  lemma ReportedIff(reader: Reader, pages: Pages, order: seq<string>, source: string, target: string)
    requires Lists(order, pages) && SlugsLeadBack(pages)
    ensures Reported(FindSpec(reader, pages, order), source, target) <==>
            && source in pages && target in pages && !Contains(pages[target], Basename(source))
            && SomeStandsFor(reader.extract(pages[source]), target)
  {
    FindExact(reader, pages, order, source, target);
    if source in pages {
      KeptStandFor(reader.extract(pages[source]), target);
    }
  }

  ghost predicate NamedBy(refs: seq<Ref>, g: Gap) {
    exists r | r in refs :: g.entityName == r.name && g.targetPage == TargetSlug(r) + ".md"
  }

  lemma {:induction false} PageGapFields(reader: Reader, pages: Pages, lookup: map<string, string>, page: string, refs: seq<Ref>, g: Gap)
    requires page in pages && (forall s | s in lookup :: lookup[s] in pages)
    requires g in PageGaps(reader, pages, lookup, page, refs)
    ensures g.sourcePage == page && g.sourceTitle == reader.title(pages[page]) && NamedBy(refs, g)
  {
    var m := |refs| - 1;
    assert refs == refs[..m] + [refs[m]];
    if g in PageGaps(reader, pages, lookup, page, refs[..m]) {
      PageGapFields(reader, pages, lookup, page, refs[..m], g);
    }
  }

  lemma {:induction false} AllGapFields(reader: Reader, pages: Pages, lookup: map<string, string>, order: seq<string>, g: Gap)
    requires (forall p | p in order :: p in pages) && (forall s | s in lookup :: lookup[s] in pages)
    requires g in AllGaps(reader, pages, lookup, order)
    ensures g.sourcePage in order && g.sourceTitle == reader.title(pages[g.sourcePage])
    ensures NamedBy(EntityRefs(reader, pages[g.sourcePage]), g)
  {
    var m := |order| - 1;
    if g in AllGaps(reader, pages, lookup, order[..m]) {
      AllGapFields(reader, pages, lookup, order[..m], g);
    } else {
      PageGapFields(reader, pages, lookup, order[m], EntityRefs(reader, pages[order[m]]), g);
    }
  }

  /** A reported gap carries the title of its source page, and the name by which that page mentions the target. */
  lemma GapFields(reader: Reader, pages: Pages, order: seq<string>, g: Gap)
    requires Lists(order, pages) && g in FindSpec(reader, pages, order)
    ensures g.sourcePage in pages && g.sourceTitle == reader.title(pages[g.sourcePage])
    ensures NamedBy(EntityRefs(reader, pages[g.sourcePage]), g)
  {
    BySlugKnown(order);
    AllGapFields(reader, pages, BySlug(order), order, g);
  }

  /** The slug of a page drops the first `.md` of its path. */
  lemma SlugDropsFirst(a: string, b: string)
    requires forall k | 0 <= k < |a| :: !OccursAt(a + ".md" + b, ".md", k)
    ensures SlugOf(a + ".md" + b) == a + b
  {
    var path := a + ".md" + b;
    assert path[|a|..|a| + 3] == ".md";
    FoundFirst(path, ".md", 0, |a|);
    assert path[..|a|] == a && path[|a| + 3..] == b;
  }

  /** The count of a fix is the number of listed gaps whose target is a page. */
  lemma {:induction false} CountsListed(pages: Pages, gaps: seq<Gap>)
    ensures (forall i | 0 <= i < |gaps| :: gaps[i].targetPage in pages) ==> CountFixed(pages, gaps) == |gaps|
    ensures (forall i | 0 <= i < |gaps| :: gaps[i].targetPage !in pages) ==> CountFixed(pages, gaps) == 0
  {
    if gaps != [] {
      CountsListed(pages, gaps[..|gaps| - 1]);
    }
  }

  lemma {:induction false} CountsAdd(pages: Pages, a: seq<Gap>, b: seq<Gap>)
    ensures CountFixed(pages, a + b) == CountFixed(pages, a) + CountFixed(pages, b)
  {
    if b == [] {
      assert a + b == a;
    } else {
      CountsAdd(pages, a, b[..|b| - 1]);
      assert (a + b)[..|a + b| - 1] == a + b[..|b| - 1];
    }
  }
}
