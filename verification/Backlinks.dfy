/** `src/commands/backlinks.ts`: find pages that mention an entity page without a link
    back, and write the missing links. */
module Backlinks {
  import opened Results
  import opened Sequences
  import opened OrderedMaps
  import opened Text

  /** Page contents by path relative to the brain directory. */
  type Pages = map<string, string>

  datatype Ref = Ref(name: string, slug: string, dir: string)

  datatype Gap = Gap(sourcePage: string, targetPage: string, entityName: string, sourceTitle: string)

  /** The canonical extractor and the title heuristics, both arbitrary here. */
  datatype Reader = Reader(extract: string -> seq<Ref>, title: string -> string)

  // ---------------------------------------------------------------- paths and references

  /** The part after the last slash. */
  function Basename(path: string): string {
    if path == [] || path[|path| - 1] == '/' then []
    else Basename(path[..|path| - 1]) + [path[|path| - 1]]
  }

  /** `relPath.replace('.md', '')`: the first occurrence goes. */
  function SlugOf(path: string): string {
    match IndexOf(path, ".md", 0)
    case None => path
    case Some(i) => path[..i] + path[i + 3..]
  }

  function StripDir(r: Ref): Ref {
    if StartsWith(r.slug, r.dir + "/") then r.(slug := r.slug[|r.dir| + 1..]) else r
  }

  /** `extractEntityRefs`: people and companies only, slugs without their directory. */
  function EntityRefs(reader: Reader, content: string): seq<Ref> {
    KeepEntities(reader.extract(content))
  }

  function KeepEntities(refs: seq<Ref>): seq<Ref> {
    if refs == [] then []
    else
      var front, last := KeepEntities(refs[..|refs| - 1]), refs[|refs| - 1];
      if last.dir == "people" || last.dir == "companies" then front + [StripDir(last)] else front
  }

  function TargetSlug(r: Ref): string {
    r.dir + "/" + r.slug
  }

  predicate HasBacklink(targetContent: string, sourceFilename: string) {
    Contains(targetContent, sourceFilename)
  }

  // ---------------------------------------------------------------- finding gaps

  /** Page path by slug; a later page wins. */
  function BySlug(order: seq<string>): map<string, string> {
    if order == [] then map[]
    else BySlug(order[..|order| - 1])[SlugOf(order[|order| - 1]) := order[|order| - 1]]
  }

  predicate MissesBacklink(pages: Pages, lookup: map<string, string>, page: string, slug: string)
    requires forall s | s in lookup :: lookup[s] in pages
  {
    slug in lookup && !HasBacklink(pages[lookup[slug]], Basename(page))
  }

  function SeenSlugs(refs: seq<Ref>): set<string> {
    set r | r in refs :: TargetSlug(r)
  }

  /** The gaps of one page, one per target however often it is mentioned. */
  function PageGaps(reader: Reader, pages: Pages, lookup: map<string, string>, page: string, refs: seq<Ref>): seq<Gap>
    requires page in pages && forall s | s in lookup :: lookup[s] in pages
  {
    if refs == [] then []
    else
      var front, last := refs[..|refs| - 1], refs[|refs| - 1];
      var before := PageGaps(reader, pages, lookup, page, front);
      var slug := TargetSlug(last);
      if slug !in SeenSlugs(front) && MissesBacklink(pages, lookup, page, slug)
      then before + [Gap(page, slug + ".md", last.name, reader.title(pages[page]))]
      else before
  }

  function AllGaps(reader: Reader, pages: Pages, lookup: map<string, string>, order: seq<string>): seq<Gap>
    requires (forall p | p in order :: p in pages) && forall s | s in lookup :: lookup[s] in pages
  {
    if order == [] then []
    else
      var page := order[|order| - 1];
      AllGaps(reader, pages, lookup, order[..|order| - 1])
      + PageGaps(reader, pages, lookup, page, EntityRefs(reader, pages[page]))
  }

  lemma {:induction false} BySlugKnown(order: seq<string>)
    ensures forall s | s in BySlug(order) :: BySlug(order)[s] in order && SlugOf(BySlug(order)[s]) == s
    ensures forall p | p in order :: SlugOf(p) in BySlug(order)
  {
    if order != [] {
      var m := |order| - 1;
      BySlugKnown(order[..m]);
      assert order == order[..m] + [order[m]];
    }
  }

  /** The directory walk lists every page once, in some order. */
  ghost predicate Lists(order: seq<string>, pages: Pages) {
    Distinct(order) && (forall p | p in order :: p in pages.Keys) && (forall p | p in pages.Keys :: p in order)
  }

  function FindSpec(reader: Reader, pages: Pages, order: seq<string>): seq<Gap>
    requires Lists(order, pages)
  {
    BySlugKnown(order);
    AllGaps(reader, pages, BySlug(order), order)
  }

  // ---------------------------------------------------------------- fixing gaps

  const TIMELINE := "## Timeline"

  function Depth(targetPage: string): nat {
    if targetPage == [] then 0
    else Depth(targetPage[..|targetPage| - 1]) + if targetPage[|targetPage| - 1] == '/' then 1 else 0
  }

  function UpDirs(depth: nat): string {
    if depth == 0 then "" else "../" + UpDirs(depth - 1)
  }

  function EntryFor(gap: Gap, date: string): string {
    "- **" + date + "** | Referenced in [" + gap.sourceTitle + "]("
    + UpDirs(Depth(gap.targetPage)) + gap.sourcePage + ")"
  }

  lemma PrefixOccurs(s: string, end: nat, t: string, i: int)
    requires end <= |s| && OccursAt(s[..end], t, i)
    ensures OccursAt(s, t, i)
  {
    assert s[..end][i..i + |t|] == s[i..i + |t|];
  }

  /** Where a new entry goes when the timeline section is followed by another section: the
      section is looked for up to the next timeline heading only. */
  function NextSection(content: string): (r: Option<nat>)
    ensures r.Some? ==> OccursAt(content, "\n## ", r.value)
  {
    match IndexOf(content, TIMELINE, 0)
    case None => None
    case Some(at) =>
      var start := at + |TIMELINE|;
      var end := match IndexOf(content, TIMELINE, start) case Some(e) => e case None => |content|;
      match IndexOf(content[..end], "\n## ", start)
      case None => None
      case Some(i) =>
        PrefixOccurs(content, end, "\n## ", i);
        Some(i)
  }

  function InsertEntry(content: string, entry: string): string {
    if !Contains(content, TIMELINE) then TrimEnd(content) + "\n\n## Timeline\n\n" + entry + "\n"
    else
      match NextSection(content)
      case Some(i) => content[..i] + "\n" + entry + content[i..]
      case None => TrimEnd(content) + "\n" + entry + "\n"
  }

  function InsertAll(content: string, gaps: seq<Gap>, date: string): string {
    if gaps == [] then content
    else InsertEntry(InsertAll(content, gaps[..|gaps| - 1], date), EntryFor(gaps[|gaps| - 1], date))
  }

  function GapsFor(gaps: seq<Gap>, target: string): seq<Gap> {
    if gaps == [] then []
    else
      var front, last := GapsFor(gaps[..|gaps| - 1], target), gaps[|gaps| - 1];
      if last.targetPage == target then front + [last] else front
  }

  function FixSpec(pages: Pages, gaps: seq<Gap>, date: string): (after: Pages)
    ensures after.Keys == pages.Keys
  {
    map t | t in pages :: InsertAll(pages[t], GapsFor(gaps, t), date)
  }

  function CountFixed(pages: Pages, gaps: seq<Gap>): nat {
    if gaps == [] then 0
    else CountFixed(pages, gaps[..|gaps| - 1]) + if gaps[|gaps| - 1].targetPage in pages then 1 else 0
  }

  // ---------------------------------------------------------------- the command

  type Groups = OrderedMap<string, seq<Gap>>

  ghost predicate Grouped(byTarget: Groups, gaps: seq<Gap>) {
    && byTarget.Valid()
    && (forall t | t in byTarget.at :: byTarget.at[t] == GapsFor(gaps, t))
    && (forall t | t !in byTarget.at :: GapsFor(gaps, t) == [])
  }

  lemma GapsForStep(gaps: seq<Gap>, g: Gap, t: string)
    ensures GapsFor(gaps + [g], t) == if g.targetPage == t then GapsFor(gaps, t) + [g] else GapsFor(gaps, t)
  {
    assert (gaps + [g])[..|gaps|] == gaps;
  }

  function Bucket(byTarget: Groups, target: string): seq<Gap> {
    if target in byTarget.at then byTarget.at[target] else []
  }

  lemma GroupStep(byTarget: Groups, gaps: seq<Gap>, g: Gap, bucket: seq<Gap>, all: seq<Gap>)
    requires Grouped(byTarget, gaps) && bucket == Bucket(byTarget, g.targetPage) + [g] && all == gaps + [g]
    ensures Grouped(byTarget.Set(g.targetPage, bucket), all)
  {
    byTarget.SetValid(g.targetPage, bucket);
    forall t ensures GapsFor(all, t) == if g.targetPage == t then GapsFor(gaps, t) + [g] else GapsFor(gaps, t) {
      GapsForStep(gaps, g, t);
    }
  }

  method GroupByTarget(gaps: seq<Gap>) returns (byTarget: Groups)
    ensures Grouped(byTarget, gaps)
  {
    byTarget := OrderedMap([], map[]);
    for i := 0 to |gaps|
      invariant Grouped(byTarget, gaps[..i])
    {
      var gap := gaps[i];
      var bucket := Bucket(byTarget, gap.targetPage) + [gap];
      GroupStep(byTarget, gaps[..i], gap, bucket, gaps[..i + 1]);
      byTarget := byTarget.Set(gap.targetPage, bucket);
    }
    assert gaps[..|gaps|] == gaps;
  }

  method IndexPages(order: seq<string>) returns (pagesBySlug: map<string, string>)
    ensures pagesBySlug == BySlug(order)
  {
    pagesBySlug := map[];
    for i := 0 to |order|
      invariant pagesBySlug == BySlug(order[..i])
    {
      assert order[..i + 1][..i] == order[..i];
      pagesBySlug := pagesBySlug[SlugOf(order[i]) := order[i]];
    }
    assert order[..|order|] == order;
  }

  /** The new text of one target page. */
  method FixPage(content: string, targetGaps: seq<Gap>, date: string) returns (text: string, fixed: nat)
    ensures text == InsertAll(content, targetGaps, date) && fixed == |targetGaps|
  {
    text, fixed := content, 0;
    for j := 0 to |targetGaps|
      invariant text == InsertAll(content, targetGaps[..j], date) && fixed == j
    {
      assert targetGaps[..j + 1][..j] == targetGaps[..j];
      text := InsertEntry(text, EntryFor(targetGaps[j], date));
      fixed := fixed + 1;
    }
    assert targetGaps[..|targetGaps|] == targetGaps;
  }

  /** The pages once the targets in `done` are written. */
  function FixSome(pages: Pages, gaps: seq<Gap>, done: set<string>, date: string): Pages {
    map t | t in pages :: if t in done then InsertAll(pages[t], GapsFor(gaps, t), date) else pages[t]
  }

  lemma FixSomeIsAll(pages: Pages, gaps: seq<Gap>, done: set<string>, date: string)
    requires forall t | GapsFor(gaps, t) != [] :: t in done
    ensures FixSome(pages, gaps, done, date) == FixSpec(pages, gaps, date)
  {
  }

  lemma FixSomeStep(pages: Pages, gaps: seq<Gap>, done: set<string>, t: string, date: string)
    ensures FixSome(pages, gaps, done + {t}, date) ==
            if t in pages then FixSome(pages, gaps, done, date)[t := InsertAll(pages[t], GapsFor(gaps, t), date)]
            else FixSome(pages, gaps, done, date)
  {
  }

  class Brain {
    const reader: Reader
    var pages: Pages

    constructor (reader: Reader, pages: Pages)
      ensures this.reader == reader && this.pages == pages
    {
      this.reader := reader;
      this.pages := pages;
    }

    /** `findBacklinkGaps`, for one order of the directory walk. */
    method FindBacklinkGaps(order: seq<string>) returns (gaps: seq<Gap>)
      requires Lists(order, pages)
      ensures gaps == FindSpec(reader, pages, order)
    {
      BySlugKnown(order);
      var pagesBySlug := IndexPages(order);
      gaps := [];
      assert order[..0] == [];
      for i := 0 to |order|
        invariant gaps == AllGaps(reader, pages, pagesBySlug, order[..i])
      {
        assert order[..i + 1][..i] == order[..i];
        var found := GapsOfPage(pagesBySlug, order[i]);
        gaps := gaps + found;
      }
      assert order[..|order|] == order;
    }

    method GapsOfPage(pagesBySlug: map<string, string>, page: string) returns (gaps: seq<Gap>)
      requires page in pages && forall s | s in pagesBySlug :: pagesBySlug[s] in pages
      ensures gaps == PageGaps(reader, pages, pagesBySlug, page, EntityRefs(reader, pages[page]))
    {
      gaps := [];
      var refs := EntityRefs(reader, pages[page]);
      var sourceFilename := Basename(page);
      var seen: set<string> := {};
      for i := 0 to |refs|
        invariant seen == SeenSlugs(refs[..i])
        invariant gaps == PageGaps(reader, pages, pagesBySlug, page, refs[..i])
      {
        var ref := refs[i];
        var targetSlug := TargetSlug(ref);
        assert refs[..i + 1] == refs[..i] + [ref] && refs[..i + 1][..i] == refs[..i];
        assert SeenSlugs(refs[..i + 1]) == SeenSlugs(refs[..i]) + {targetSlug};
        if targetSlug in seen {
          continue;
        }
        seen := seen + {targetSlug};
        if targetSlug !in pagesBySlug {
          continue;
        }
        if !HasBacklink(pages[pagesBySlug[targetSlug]], sourceFilename) {
          gaps := gaps + [Gap(page, targetSlug + ".md", ref.name, reader.title(pages[page]))];
        }
      }
      assert refs[..|refs|] == refs;
    }

    /** `fixBacklinkGaps`: one write per target page. */
    method FixBacklinkGaps(gaps: seq<Gap>, date: string, dryRun: bool) returns (fixed: nat)
      modifies this`pages
      ensures pages == if dryRun then old(pages) else FixSpec(old(pages), gaps, date)
      ensures fixed == CountFixed(old(pages), gaps)
    {
      var byTarget := GroupByTarget(gaps);
      fixed := 0;
      for i := 0 to |byTarget.keys|
        invariant fixed == CountAfter(old(pages), byTarget, i)
        invariant pages == PagesAfter(old(pages), byTarget, i, date, dryRun)
      {
        var targetPage := byTarget.keys[i];
        var n := FixTarget(targetPage, byTarget.at[targetPage], date, dryRun);
        fixed := fixed + n;
      }
      FixEnds(old(pages), gaps, byTarget, date, dryRun);
    }

    /** The body of the loop: one target, missing pages skipped. */
    method FixTarget(targetPage: string, targetGaps: seq<Gap>, date: string, dryRun: bool) returns (n: nat)
      modifies this`pages
      ensures pages == Rewritten(old(pages), targetPage, targetGaps, date, dryRun)
      ensures n == if targetPage in old(pages) then |targetGaps| else 0
    {
      n := 0;
      if targetPage in pages {
        var text;
        text, n := FixPage(pages[targetPage], targetGaps, date);
        if !dryRun {
          pages := pages[targetPage := text];
        }
      }
    }
  }

  function Rewritten(pages: Pages, targetPage: string, targetGaps: seq<Gap>, date: string, dryRun: bool): (after: Pages)
    ensures after.Keys == pages.Keys
  {
    if targetPage in pages && !dryRun then pages[targetPage := InsertAll(pages[targetPage], targetGaps, date)] else pages
  }

  /** The pages after the first `i` turns of the loop over the targets. */
  function PagesAfter(before: Pages, byTarget: Groups, i: nat, date: string, dryRun: bool): (after: Pages)
    requires byTarget.Valid() && i <= |byTarget.keys|
    ensures after.Keys == before.Keys
  {
    if i == 0 then before
    else
      var t := byTarget.keys[i - 1];
      Rewritten(PagesAfter(before, byTarget, i - 1, date, dryRun), t, byTarget.at[t], date, dryRun)
  }

  /** The entries counted by then. */
  function CountAfter(before: Pages, byTarget: Groups, i: nat): nat
    requires byTarget.Valid() && i <= |byTarget.keys|
  {
    if i == 0 then 0
    else
      var t := byTarget.keys[i - 1];
      CountAfter(before, byTarget, i - 1) + if t in before then |byTarget.at[t]| else 0
  }

  /** The loop over the targets has dealt with the first `i` of them. */
  ghost predicate FixedUpTo(before: Pages, gaps: seq<Gap>, keys: seq<string>, i: nat, date: string, dryRun: bool,
                            pages: Pages, fixed: nat)
    requires i <= |keys|
  {
    && fixed == SumFor(before, keys[..i], gaps)
    && pages == if dryRun then before else FixSome(before, gaps, Elements(keys[..i]), date)
  }

  lemma FixStarts(before: Pages, gaps: seq<Gap>, keys: seq<string>, date: string, dryRun: bool)
    ensures FixedUpTo(before, gaps, keys, 0, date, dryRun, before, 0)
  {
    assert keys[..0] == [] && FixSome(before, gaps, {}, date) == before;
  }

  /** One turn of that loop. */
  lemma FixStep(before: Pages, gaps: seq<Gap>, byTarget: Groups, i: nat, date: string, dryRun: bool, pages: Pages, fixed: nat)
    requires Grouped(byTarget, gaps) && i < |byTarget.keys|
    requires FixedUpTo(before, gaps, byTarget.keys, i, date, dryRun, pages, fixed)
    ensures var keys, t := byTarget.keys, byTarget.keys[i];
            && t in byTarget.at
            && FixedUpTo(before, gaps, keys, i + 1, date, dryRun, Rewritten(pages, t, byTarget.at[t], date, dryRun),
                         fixed + if t in pages then |byTarget.at[t]| else 0)
  {
    var done := Elements(byTarget.keys[..i]);
    TargetStep(byTarget, i, gaps, done);
    FixSomeStep(before, gaps, done, byTarget.keys[i], date);
  }

  lemma {:induction false} TurnsFix(before: Pages, gaps: seq<Gap>, byTarget: Groups, i: nat, date: string, dryRun: bool)
    requires Grouped(byTarget, gaps) && i <= |byTarget.keys|
    ensures FixedUpTo(before, gaps, byTarget.keys, i, date, dryRun,
                      PagesAfter(before, byTarget, i, date, dryRun), CountAfter(before, byTarget, i))
  {
    if i == 0 {
      FixStarts(before, gaps, byTarget.keys, date, dryRun);
    } else {
      TurnsFix(before, gaps, byTarget, i - 1, date, dryRun);
      FixStep(before, gaps, byTarget, i - 1, date, dryRun,
              PagesAfter(before, byTarget, i - 1, date, dryRun), CountAfter(before, byTarget, i - 1));
    }
  }

  lemma FixEnds(before: Pages, gaps: seq<Gap>, byTarget: Groups, date: string, dryRun: bool)
    requires Grouped(byTarget, gaps)
    ensures PagesAfter(before, byTarget, |byTarget.keys|, date, dryRun) == if dryRun then before else FixSpec(before, gaps, date)
    ensures CountAfter(before, byTarget, |byTarget.keys|) == CountFixed(before, gaps)
  {
    var keys := byTarget.keys;
    TurnsFix(before, gaps, byTarget, |keys|, date, dryRun);
    assert keys[..|keys|] == keys;
    CountByKeys(before, keys, gaps);
    FixSomeIsAll(before, gaps, Elements(keys), date);
  }

  lemma TargetStep(byTarget: Groups, i: nat, gaps: seq<Gap>, done: set<string>)
    requires Grouped(byTarget, gaps) && i < |byTarget.keys| && done == Elements(byTarget.keys[..i])
    ensures var t := byTarget.keys[i];
            && t in byTarget.at && t !in done && byTarget.at[t] == GapsFor(gaps, t)
            && byTarget.keys[..i + 1][..i] == byTarget.keys[..i]
            && done + {t} == Elements(byTarget.keys[..i + 1])
  {
    assert byTarget.keys[..i + 1] == byTarget.keys[..i] + [byTarget.keys[i]];
  }

  function SumFor(pages: Pages, keys: seq<string>, gaps: seq<Gap>): nat {
    if keys == [] then 0
    else
      var t := keys[|keys| - 1];
      SumFor(pages, keys[..|keys| - 1], gaps) + if t in pages then |GapsFor(gaps, t)| else 0
  }

  lemma {:induction false} CountByKeys(pages: Pages, keys: seq<string>, gaps: seq<Gap>)
    requires Distinct(keys) && forall t | GapsFor(gaps, t) != [] :: t in keys
    ensures SumFor(pages, keys, gaps) == CountFixed(pages, gaps)
  {
    if gaps == [] {
      SumOfNothing(pages, keys);
    } else {
      var front, g := gaps[..|gaps| - 1], gaps[|gaps| - 1];
      assert gaps == front + [g];
      forall t ensures GapsFor(gaps, t) == if g.targetPage == t then GapsFor(front, t) + [g] else GapsFor(front, t) {
        GapsForStep(front, g, t);
      }
      CountByKeys(pages, keys, front);
      assert GapsFor(gaps, g.targetPage) != [];
      OneMore(pages, keys, front, g);
    }
  }

  lemma {:induction false} SumOfNothing(pages: Pages, keys: seq<string>)
    ensures SumFor(pages, keys, []) == 0
  {
    if keys != [] {
      SumOfNothing(pages, keys[..|keys| - 1]);
    }
  }

  lemma {:induction false} OneMore(pages: Pages, keys: seq<string>, gaps: seq<Gap>, g: Gap)
    requires Distinct(keys)
    ensures SumFor(pages, keys, gaps + [g])
            == SumFor(pages, keys, gaps) + if g.targetPage in keys && g.targetPage in pages then 1 else 0
  {
    if keys != [] {
      var m := |keys| - 1;
      OneMore(pages, keys[..m], gaps, g);
      GapsForStep(gaps, g, keys[m]);
      assert keys == keys[..m] + [keys[m]];
      assert keys[m] !in keys[..m];
    }
  }
}
