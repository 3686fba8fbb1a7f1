/** `scripts/mine-shard-weights.ts`: per-file runtimes out of an interleaved CI log. */
module ShardWeights {
  import opened Sequences
  import opened OrderedMaps

  /** A file-start line; timestamps are whole milliseconds. */
  datatype Event = Event(job: string, at: int, file: string)

  type Groups = OrderedMap<string, seq<Event>>
  type Weights = OrderedMap<string, int>

  /** The events of one job, in stream order. */
  function OfJob(events: seq<Event>, job: string): seq<Event> {
    if events == [] then []
    else
      var last := events[|events| - 1];
      OfJob(events[..|events| - 1], job) + if last.job == job then [last] else []
  }

  function JobEvents(events: seq<Event>): string -> seq<Event> {
    (job: string) => OfJob(events, job)
  }

  /** Job names in the order they first appear. */
  function JobNames(events: seq<Event>): seq<string> {
    if events == [] then []
    else
      var names, last := JobNames(events[..|events| - 1]), events[|events| - 1].job;
      if last in names then names else names + [last]
  }

  /** The events of every job, job by job. */
  function Grouped(events: seq<Event>): seq<seq<Event>> {
    Map(JobEvents(events), JobNames(events))
  }

  /** One gap between neighbours: ignored when negative, otherwise the heavier one wins. */
  function Observe(w: Weights, e: Event, next: Event): Weights {
    var ms := next.at - e.at;
    if ms < 0 then w
    else if e.file !in w.at || ms > w.at[e.file] then w.Set(e.file, ms)
    else w
  }

  /** `w` after the first `k` gaps of one job. */
  function ObserveGaps(w: Weights, evs: seq<Event>, k: nat): Weights
    requires k == 0 || k < |evs|
  {
    if k == 0 then w else Observe(ObserveGaps(w, evs, k - 1), evs[k - 1], evs[k])
  }

  function GapCount(evs: seq<Event>): nat {
    if evs == [] then 0 else |evs| - 1
  }

  function ObserveJobs(jobs: seq<seq<Event>>): Weights {
    if jobs == [] then OrderedMap([], map[])
    else
      var last := jobs[|jobs| - 1];
      ObserveGaps(ObserveJobs(jobs[..|jobs| - 1]), last, GapCount(last))
  }

  function WeightsSpec(events: seq<Event>): Weights {
    ObserveJobs(Grouped(events))
  }

  ghost predicate Indexes(byJob: Groups, events: seq<Event>) {
    && byJob.Valid()
    && byJob.keys == JobNames(events)
    && forall job | job in byJob.at :: byJob.at[job] == OfJob(events, job)
  }

  lemma IndexStep(byJob: Groups, front: seq<Event>, e: Event)
    requires Indexes(byJob, front)
    ensures Indexes(byJob.Set(e.job, (if e.job in byJob.at then byJob.at[e.job] else []) + [e]), front + [e])
  {
    var after := byJob.Set(e.job, (if e.job in byJob.at then byJob.at[e.job] else []) + [e]);
    NamesStep(front, e);
    NamedJobs(front, e.job);
    forall job | job in after.at ensures after.at[job] == OfJob(front + [e], job) {
      OfJobStep(front, e, job);
    }
  }

  lemma {:induction false} NamedJobs(events: seq<Event>, job: string)
    ensures job in JobNames(events) <==> OfJob(events, job) != []
  {
    if events != [] {
      NamedJobs(events[..|events| - 1], job);
    }
  }

  method ComputeWeights(events: seq<Event>) returns (weights: Weights)
    ensures weights == WeightsSpec(events)
  {
    var byJob: Groups := OrderedMap([], map[]);
    assert events[..0] == [];
    for n := 0 to |events|
      invariant Indexes(byJob, events[..n])
    {
      var e := events[n];
      IndexStep(byJob, events[..n], e);
      assert events[..n + 1] == events[..n] + [e];
      var bucket := if e.job in byJob.at then byJob.at[e.job] else [];
      byJob := byJob.Set(e.job, bucket + [e]);
    }
    assert events[..|events|] == events;
    var groups := byJob.Values();
    assert groups == Grouped(events);
    weights := WeighJobs(groups);
  }

  method WeighJobs(groups: seq<seq<Event>>) returns (weights: Weights)
    ensures weights == ObserveJobs(groups)
  {
    weights := OrderedMap([], map[]);
    assert groups[..0] == [];
    for g := 0 to |groups|
      invariant weights == ObserveJobs(groups[..g])
    {
      var jobEvents := groups[g];
      ghost var before := weights;
      var i := 0;
      while i + 1 < |jobEvents|
        invariant 0 <= i <= GapCount(jobEvents)
        invariant weights == ObserveGaps(before, jobEvents, i)
      {
        var ms := jobEvents[i + 1].at - jobEvents[i].at;
        var file := jobEvents[i].file;
        if ms >= 0 {
          if file !in weights.at || ms > weights.at[file] {
            weights := weights.Set(file, ms);
          }
        }
        i := i + 1;
      }
      assert groups[..g + 1][..g] == groups[..g];
    }
    assert groups[..|groups|] == groups;
  }

  // ---------------------------------------------------------------- what a weight is

  /** The `i`-th file of a job is `file`, and its successor started `ms` later. */
  ghost predicate GapAt(evs: seq<Event>, i: int, file: string, ms: int) {
    0 <= i && i + 1 < |evs| && evs[i].file == file && evs[i + 1].at - evs[i].at == ms && ms >= 0
  }

  /** Some job shows `file` taking `ms`. */
  ghost predicate Observed(events: seq<Event>, file: string, ms: int) {
    exists job, i :: GapAt(OfJob(events, job), i, file, ms)
  }

  /** `at` maps exactly the observed files, each to its longest observed runtime. */
  ghost predicate LongestRuntimes(events: seq<Event>, at: map<string, int>) {
    && (forall f | f in at :: Observed(events, f, at[f]))
    && (forall f, ms | Observed(events, f, ms) :: f in at && ms <= at[f])
  }

  /** Everything in `after` was there or is a gap, and every gap left its mark. */
  ghost predicate Absorbed(before: map<string, int>, after: map<string, int>, evs: seq<Event>, k: nat) {
    && (forall f | f in after :: (f in before && before[f] == after[f]) || exists i :: i < k && GapAt(evs, i, f, after[f]))
    && (forall f | f in before :: f in after && before[f] <= after[f])
    && (forall i, f, ms | i < k && GapAt(evs, i, f, ms) :: f in after && ms <= after[f])
  }

  lemma {:induction false} GapsAbsorbed(w: Weights, evs: seq<Event>, k: nat)
    requires k == 0 || k < |evs|
    ensures Absorbed(w.at, ObserveGaps(w, evs, k).at, evs, k)
  {
    if k > 0 {
      GapsAbsorbed(w, evs, k - 1);
      ObserveAbsorbs(w.at, ObserveGaps(w, evs, k - 1), evs, k - 1);
    }
  }

  lemma ObserveAbsorbs(base: map<string, int>, mid: Weights, evs: seq<Event>, k: nat)
    requires k + 1 < |evs| && Absorbed(base, mid.at, evs, k)
    ensures Absorbed(base, Observe(mid, evs[k], evs[k + 1]).at, evs, k + 1)
  {
    var after := Observe(mid, evs[k], evs[k + 1]).at;
    forall f | f in after
      ensures (f in base && base[f] == after[f]) || exists i :: i < k + 1 && GapAt(evs, i, f, after[f])
    {
      if f in mid.at && mid.at[f] == after[f] {
        if !(f in base && base[f] == after[f]) {
          var i :| i < k && GapAt(evs, i, f, after[f]);
          assert i < k + 1 && GapAt(evs, i, f, after[f]);
        }
      } else {
        assert GapAt(evs, k, f, after[f]);
      }
    }
    forall i, f, ms | i < k + 1 && GapAt(evs, i, f, ms) ensures f in after && ms <= after[f] {
      if i < k {
        assert f in mid.at && ms <= mid.at[f];
      }
    }
  }

  /** The same over a list of jobs. */
  ghost predicate AbsorbedAll(at: map<string, int>, jobs: seq<seq<Event>>) {
    && (forall f | f in at :: exists g, i :: 0 <= g < |jobs| && GapAt(jobs[g], i, f, at[f]))
    && (forall g, i, f, ms | 0 <= g < |jobs| && GapAt(jobs[g], i, f, ms) :: f in at && ms <= at[f])
  }

  lemma {:induction false} JobsAbsorbed(jobs: seq<seq<Event>>)
    ensures AbsorbedAll(ObserveJobs(jobs).at, jobs)
  {
    if jobs != [] {
      var m := |jobs| - 1;
      JobsAbsorbed(jobs[..m]);
      GapsAbsorbed(ObserveJobs(jobs[..m]), jobs[m], GapCount(jobs[m]));
      AbsorbJob(ObserveJobs(jobs[..m]).at, ObserveJobs(jobs).at, jobs[..m], jobs[m]);
      assert jobs == jobs[..m] + [jobs[m]];
    }
  }

  lemma AbsorbJob(before: map<string, int>, after: map<string, int>, front: seq<seq<Event>>, last: seq<Event>)
    requires AbsorbedAll(before, front) && Absorbed(before, after, last, GapCount(last))
    ensures AbsorbedAll(after, front + [last])
  {
    var jobs := front + [last];
    forall f | f in after ensures exists g, i :: 0 <= g < |jobs| && GapAt(jobs[g], i, f, after[f]) {
      if f in before && before[f] == after[f] {
        var g, i :| 0 <= g < |front| && GapAt(front[g], i, f, after[f]);
        assert jobs[g] == front[g];
      } else {
        var i :| i < GapCount(last) && GapAt(last, i, f, after[f]);
        assert jobs[|front|] == last;
      }
    }
    forall g, i, f, ms | 0 <= g < |jobs| && GapAt(jobs[g], i, f, ms) ensures f in after && ms <= after[f] {
      if g < |front| {
        assert GapAt(front[g], i, f, ms);
        assert f in before && ms <= before[f];
      } else {
        assert i < GapCount(last) && GapAt(last, i, f, ms);
      }
    }
  }

  /** The mined map holds, for exactly the files some job shows running, the longest
      runtime any job shows. */
  lemma WeightsAreLongestRuntimes(events: seq<Event>)
    ensures LongestRuntimes(events, WeightsSpec(events).at)
  {
    var names, jobs := JobNames(events), Grouped(events);
    JobsAbsorbed(jobs);
    var at := WeightsSpec(events).at;
    forall f | f in at ensures Observed(events, f, at[f]) {
      var g, i :| 0 <= g < |jobs| && GapAt(jobs[g], i, f, at[f]);
      assert GapAt(OfJob(events, names[g]), i, f, at[f]);
    }
    forall f, ms | Observed(events, f, ms) ensures f in at && ms <= at[f] {
      var job, i :| GapAt(OfJob(events, job), i, f, ms);
      NamedJobs(events, job);
      var g :| 0 <= g < |names| && names[g] == job;
      assert GapAt(jobs[g], i, f, ms);
    }
  }

  lemma ObservedSame(a: seq<Event>, b: seq<Event>, f: string, ms: int)
    requires forall job :: OfJob(a, job) == OfJob(b, job)
    requires Observed(a, f, ms)
    ensures Observed(b, f, ms)
  {
    var job, i :| GapAt(OfJob(a, job), i, f, ms);
    assert GapAt(OfJob(b, job), i, f, ms);
  }

  /** How the jobs of one run interleave in the log does not matter. */
  lemma InterleavingIrrelevant(a: seq<Event>, b: seq<Event>)
    requires forall job :: OfJob(a, job) == OfJob(b, job)
    ensures WeightsSpec(a).at == WeightsSpec(b).at
  {
    WeightsAreLongestRuntimes(a);
    WeightsAreLongestRuntimes(b);
    var x, y := WeightsSpec(a).at, WeightsSpec(b).at;
    forall f | f in x ensures f in y && x[f] <= y[f] {
      ObservedSame(a, b, f, x[f]);
    }
    forall f | f in y ensures f in x && y[f] <= x[f] {
      ObservedSame(b, a, f, y[f]);
    }
    assert x == y;
  }

  // ---------------------------------------------------------------- conservation

  function Total(w: Weights): int
    requires w.Valid()
  {
    SumOf(w.Values())
  }

  function SumOf(xs: seq<int>): int {
    if xs == [] then 0 else SumOf(xs[..|xs| - 1]) + xs[|xs| - 1]
  }

  /** Last start minus first start. */
  function Span(evs: seq<Event>): int {
    if evs == [] then 0 else evs[|evs| - 1].at - evs[0].at
  }

  function Spans(jobs: seq<seq<Event>>): int {
    if jobs == [] then 0 else Spans(jobs[..|jobs| - 1]) + Span(jobs[|jobs| - 1])
  }

  ghost predicate Monotone(evs: seq<Event>) {
    forall i, j | 0 <= i < j < |evs| :: evs[i].at <= evs[j].at
  }

  ghost predicate FilesOnce(evs: seq<Event>) {
    forall i, j | 0 <= i < j < |evs| :: evs[i].file != evs[j].file
  }

  lemma NewKeyAdds(w: Weights, file: string, ms: int)
    requires w.Valid() && file !in w.at
    ensures w.Set(file, ms).Valid()
    ensures Total(w.Set(file, ms)) == Total(w) + ms
  {
    assert w.Set(file, ms).Values() == w.Values() + [ms];
  }

  lemma {:induction false} GapsTelescope(w: Weights, evs: seq<Event>, k: nat)
    requires k == 0 || k < |evs|
    requires w.Valid() && Monotone(evs) && FilesOnce(evs)
    requires forall i | 0 <= i < |evs| :: evs[i].file !in w.at
    ensures var out := ObserveGaps(w, evs, k);
            && out.Valid()
            && Total(out) == Total(w) + (if k == 0 then 0 else evs[k].at - evs[0].at)
            && (forall i | k <= i < |evs| :: evs[i].file !in out.at)
  {
    if k > 0 {
      GapsTelescope(w, evs, k - 1);
      FreshGap(ObserveGaps(w, evs, k - 1), evs, k);
    }
  }

  lemma FreshGap(w: Weights, evs: seq<Event>, k: nat)
    requires 0 < k < |evs| && w.Valid() && evs[k - 1].at <= evs[k].at && FilesOnce(evs)
    requires forall i | k - 1 <= i < |evs| :: evs[i].file !in w.at
    ensures var out := Observe(w, evs[k - 1], evs[k]);
            && out.Valid()
            && Total(out) == Total(w) + evs[k].at - evs[k - 1].at
            && (forall i | k <= i < |evs| :: evs[i].file !in out.at)
  {
    NewKeyAdds(w, evs[k - 1].file, evs[k].at - evs[k - 1].at);
  }

  lemma FilesOnceSplit(front: seq<Event>, last: seq<Event>)
    requires FilesOnce(front + last)
    ensures FilesOnce(front) && FilesOnce(last)
    ensures forall d, e | d in front && e in last :: d.file != e.file
  {
    var all := front + last;
    forall i, j | 0 <= i < j < |front| ensures front[i].file != front[j].file {
      assert all[i] == front[i] && all[j] == front[j];
    }
    forall i, j | 0 <= i < j < |last| ensures last[i].file != last[j].file {
      assert all[|front| + i] == last[i] && all[|front| + j] == last[j];
    }
    forall d, e | d in front && e in last ensures d.file != e.file {
      var i :| 0 <= i < |front| && front[i] == d;
      var j :| 0 <= j < |last| && last[j] == e;
      assert all[i] == d && all[|front| + j] == e;
    }
  }

  ghost predicate KnownFiles(w: Weights, evs: seq<Event>) {
    forall f | f in w.at :: exists e :: e in evs && e.file == f
  }

  lemma {:induction false} JobsTelescope(jobs: seq<seq<Event>>)
    requires forall g | 0 <= g < |jobs| :: Monotone(jobs[g])
    requires FilesOnce(Flatten(jobs))
    ensures var w := ObserveJobs(jobs);
            w.Valid() && Total(w) == Spans(jobs) && KnownFiles(w, Flatten(jobs))
  {
    if jobs != [] {
      var m := |jobs| - 1;
      var front, last := Flatten(jobs[..m]), jobs[m];
      FilesOnceSplit(front, last);
      JobsTelescope(jobs[..m]);
      var before := ObserveJobs(jobs[..m]);
      forall i | 0 <= i < |last| ensures last[i].file !in before.at {
        assert forall d | d in front :: d.file != last[i].file;
      }
      GapsTelescope(before, last, GapCount(last));
      GapsKnown(before, front, last, GapCount(last));
    }
  }

  lemma {:induction false} GapsKnown(w: Weights, front: seq<Event>, evs: seq<Event>, k: nat)
    requires k == 0 || k < |evs|
    requires KnownFiles(w, front)
    ensures KnownFiles(ObserveGaps(w, evs, k), front + evs)
  {
    if k == 0 {
      forall f | f in w.at ensures exists e :: e in front + evs && e.file == f {
        var e :| e in front && e.file == f;
        assert e in front + evs;
      }
    } else {
      GapsKnown(w, front, evs, k - 1);
      assert evs[k - 1] in front + evs;
    }
  }

  function FileOf(e: Event): string {
    e.file
  }

  lemma FilesOncePermuted(xs: seq<Event>, ys: seq<Event>)
    requires FilesOnce(xs) && multiset(xs) == multiset(ys)
    ensures FilesOnce(ys)
  {
    MapPermutes(FileOf, xs, ys);
    DistinctPermuted(Map(FileOf, xs), Map(FileOf, ys));
    assert forall i | 0 <= i < |ys| :: Map(FileOf, ys)[i] == ys[i].file;
  }

  /** Grouping by job loses and duplicates no event. */
  ghost predicate GroupingKeeps(events: seq<Event>) {
    multiset(Flatten(Grouped(events))) == multiset(events)
  }

  lemma {:induction false} GroupingKeepsEvents(events: seq<Event>)
    ensures GroupingKeeps(events)
  {
    if events != [] {
      var front, e := events[..|events| - 1], events[|events| - 1];
      GroupingKeepsEvents(front);
      GroupedGrows(front, e);
      assert events == front + [e];
    }
  }

  lemma GroupedGrows(front: seq<Event>, e: Event)
    requires GroupingKeeps(front)
    ensures GroupingKeeps(front + [e])
  {
    if e.job in JobNames(front) {
      var k := KnownJobGrows(front, e);
      FlattenUpdate(Grouped(front), k, e);
    } else {
      NewJobGrows(front, e);
      assert Grouped(front + [e])[..|Grouped(front)|] == Grouped(front);
    }
  }

  lemma OfJobStep(front: seq<Event>, e: Event, job: string)
    ensures OfJob(front + [e], job) == if e.job == job then OfJob(front, job) + [e] else OfJob(front, job)
  {
    assert (front + [e])[..|front|] == front;
  }

  lemma NamesStep(front: seq<Event>, e: Event)
    ensures JobNames(front + [e]) == if e.job in JobNames(front) then JobNames(front) else JobNames(front) + [e.job]
  {
    assert (front + [e])[..|front|] == front;
  }

  lemma KnownJobGrows(front: seq<Event>, e: Event) returns (k: nat)
    requires e.job in JobNames(front)
    ensures k < |Grouped(front)|
    ensures Grouped(front + [e]) == Grouped(front)[k := Grouped(front)[k] + [e]]
  {
    var names, before, after := JobNames(front), Grouped(front), Grouped(front + [e]);
    NamesStep(front, e);
    NamesDistinct(front);
    k :| 0 <= k < |names| && names[k] == e.job;
    forall g | 0 <= g < |names| ensures after[g] == if g == k then before[g] + [e] else before[g] {
      OfJobStep(front, e, names[g]);
    }
    assert after == before[k := before[k] + [e]];
  }

  lemma NewJobGrows(front: seq<Event>, e: Event)
    requires e.job !in JobNames(front)
    ensures Grouped(front + [e]) == Grouped(front) + [[e]]
  {
    var names, before, after := JobNames(front), Grouped(front), Grouped(front + [e]);
    NamesStep(front, e);
    assert after[|names|] == [e] by {
      NamedJobs(front, e.job);
      OfJobStep(front, e, e.job);
    }
    forall g | 0 <= g < |names| ensures after[g] == before[g] {
      OfJobStep(front, e, names[g]);
    }
    assert after == before + [[e]];
  }

  lemma {:induction false} NamesDistinct(events: seq<Event>)
    ensures Distinct(JobNames(events))
  {
    if events != [] {
      NamesDistinct(events[..|events| - 1]);
    }
  }

  /** With ordered clocks and every file seen once, the mined weights add up to the total
      time between first and last start over all jobs. */
  lemma WeightsConserveTime(events: seq<Event>)
    requires FilesOnce(events) && forall job :: Monotone(OfJob(events, job))
    ensures WeightsSpec(events).Valid()
    ensures Total(WeightsSpec(events)) == Spans(Grouped(events))
  {
    GroupingKeepsEvents(events);
    var jobs := Grouped(events);
    forall g | 0 <= g < |jobs| ensures Monotone(jobs[g]) {
      assert jobs[g] == OfJob(events, JobNames(events)[g]);
    }
    FilesOncePermuted(events, Flatten(jobs));
    JobsTelescope(jobs);
  }
}
