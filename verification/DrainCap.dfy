/** `src/commands/autopilot.ts`: the daily cap on automatic extraction drains. */
module DrainCap {
  import opened Results
  import opened Orders

  /** A UTC calendar day written `YYYY-MM-DD`, so string order is time order. */
  type Day = d: string | |d| == 10 witness "2026-01-01"

  datatype Source = Source(id: string, localPath: string)

  /** A queued drain: its idempotency key, the day its row was created, and what it is to drain for how many seconds. */
  datatype Job = Job(key: string, created: Day, source: Source, window: nat)

  /** What the services answer while the tick looks at one source. `now` is when a job would be created. */
  datatype Visit = Visit(source: Source, backlog: Result<Option<nat>, string>,
                         dupeCheckFails: bool, addFails: bool, now: Day)

  datatype Settings = Settings(active: bool, threshold: nat, maxUsd: real, window: nat)

  /** One pass of the loop: the day it reads, whether its count query answers, and the sources it sees. */
  datatype Tick = Tick(day: Day, counts: bool, visits: seq<Visit>)

  const PER_RUN_USD := 0.3

  function MaxJobs(cfg: Settings): nat {
    var jobs := (cfg.maxUsd / PER_RUN_USD).Floor;
    if jobs < 0 then 0 else jobs
  }

  function KeyOf(id: string, day: Day): string {
    "autopilot-extract-atoms-drain:" + id + ":" + day
  }

  predicate HasKey(jobs: seq<Job>, key: string) {
    exists i | 0 <= i < |jobs| :: jobs[i].key == key
  }

  function CreatedOn(jobs: seq<Job>, day: Day): nat {
    if jobs == [] then 0
    else CreatedOn(jobs[..|jobs| - 1], day) + if jobs[|jobs| - 1].created == day then 1 else 0
  }

  /** The count query: rows created at or after the start of `day`. */
  function CreatedSince(jobs: seq<Job>, day: Day): nat {
    if jobs == [] then 0
    else CreatedSince(jobs[..|jobs| - 1], day) + if StringLe(day, jobs[|jobs| - 1].created) then 1 else 0
  }

  // ---- One tick ---------------------------------------------------------------------------------

  datatype Loop = Loop(jobs: seq<Job>, submitted: nat, aborted: bool)

  /** The source passes every gate before the idempotency check. */
  predicate Due(cfg: Settings, v: Visit) {
    && v.source.localPath != ""
    && v.backlog.Ok? && v.backlog.value.Some? && v.backlog.value.value > cfg.threshold
  }

  /** The row a visit adds. */
  function RowFor(cfg: Settings, day: Day, v: Visit): Job {
    Job(KeyOf(v.source.id, day), v.now, v.source, cfg.window)
  }

  function AfterVisit(cfg: Settings, day: Day, st: Loop, v: Visit): Loop {
    if st.aborted || st.submitted >= MaxJobs(cfg) || v.source.localPath == "" then st
    else if v.backlog.Err? then st.(aborted := true)
    else if !Due(cfg, v) || v.dupeCheckFails || HasKey(st.jobs, KeyOf(v.source.id, day)) || v.addFails then st
    else Loop(st.jobs + [RowFor(cfg, day, v)], st.submitted + 1, false)
  }

  function AfterVisits(cfg: Settings, day: Day, st: Loop, visits: seq<Visit>): Loop {
    if visits == [] then st
    else AfterVisit(cfg, day, AfterVisits(cfg, day, st, visits[..|visits| - 1]), visits[|visits| - 1])
  }

  function Start(jobs: seq<Job>, t: Tick): Loop {
    Loop(jobs, if t.counts then CreatedSince(jobs, t.day) else 0, false)
  }

  function AfterTick(cfg: Settings, jobs: seq<Job>, t: Tick): seq<Job> {
    if cfg.active then AfterVisits(cfg, t.day, Start(jobs, t), t.visits).jobs else jobs
  }

  function AfterTicks(cfg: Settings, jobs: seq<Job>, ticks: seq<Tick>): seq<Job> {
    if ticks == [] then jobs
    else AfterTick(cfg, AfterTicks(cfg, jobs, ticks[..|ticks| - 1]), ticks[|ticks| - 1])
  }

  lemma {:induction false} DoneVisitsIdle(cfg: Settings, day: Day, st: Loop, visits: seq<Visit>, k: nat)
    requires k <= |visits|
    requires AfterVisits(cfg, day, st, visits[..k]).aborted
             || AfterVisits(cfg, day, st, visits[..k]).submitted >= MaxJobs(cfg)
    ensures AfterVisits(cfg, day, st, visits) == AfterVisits(cfg, day, st, visits[..k])
  {
    if k == |visits| {
      assert visits[..k] == visits;
    } else {
      assert visits[..|visits| - 1][..k] == visits[..k];
      DoneVisitsIdle(cfg, day, st, visits[..|visits| - 1], k);
    }
  }

  class Autopilot {
    var jobs: seq<Job>

    constructor ()
      ensures jobs == []
    {
      jobs := [];
    }

    /** `queue.add`: a row for a key that is already there is not added again. */
    method Add(row: Job)
      modifies this`jobs
      ensures jobs == if HasKey(old(jobs), row.key) then old(jobs) else old(jobs) + [row]
    {
      if !HasKey(jobs, row.key) {
        jobs := jobs + [row];
      }
    }

    method DrainTick(cfg: Settings, t: Tick)
      modifies this`jobs
      ensures jobs == AfterTick(cfg, old(jobs), t)
    {
      if !cfg.active {
        return;
      }
      var maxJobsToday := MaxJobs(cfg);
      var submittedToday := 0;
      if t.counts {
        submittedToday := CreatedSince(jobs, t.day);
      }
      ghost var start := Start(jobs, t);
      assert t.visits[..0] == [] && t.visits[..|t.visits|] == t.visits;
      if submittedToday >= maxJobsToday {
        DoneVisitsIdle(cfg, t.day, start, t.visits, 0);
        return;
      }
      for n := 0 to |t.visits|
        invariant AfterVisits(cfg, t.day, start, t.visits[..n]) == Loop(jobs, submittedToday, false)
      {
        if submittedToday >= maxJobsToday {
          DoneVisitsIdle(cfg, t.day, start, t.visits, n);
          return;
        }
        assert t.visits[..n + 1][..n] == t.visits[..n];
        var aborted;
        submittedToday, aborted := DrainSource(cfg, t.day, t.visits[n], submittedToday);
        if aborted {
          DoneVisitsIdle(cfg, t.day, start, t.visits, n + 1);
          return;
        }
      }
    }

    /** The body of the loop: one source, while the cap is not used up. */
    method DrainSource(cfg: Settings, day: Day, v: Visit, submitted: nat) returns (submitted': nat, aborted: bool)
      requires submitted < MaxJobs(cfg)
      modifies this`jobs
      ensures Loop(jobs, submitted', aborted) == AfterVisit(cfg, day, Loop(old(jobs), submitted, false), v)
    {
      submitted', aborted := submitted, false;
      if v.source.localPath == "" {
        return;
      }
      if v.backlog.Err? {
        aborted := true;
        return;
      }
      if v.backlog.value.None? || v.backlog.value.value <= cfg.threshold {
        return;
      }
      var key := KeyOf(v.source.id, day);
      if v.dupeCheckFails || HasKey(jobs, key) || v.addFails {
        return;
      }
      Add(Job(key, v.now, v.source, cfg.window));
      submitted' := submitted + 1;
    }
  }

  // ---- The cap ----------------------------------------------------------------------------------

  /** A job is created no earlier than the day its tick read. */
  ghost predicate ClockRuns(t: Tick) {
    forall i | 0 <= i < |t.visits| :: StringLe(t.day, t.visits[i].now)
  }

  lemma {:induction false} OnWithinSince(jobs: seq<Job>, day: Day, on: Day)
    requires StringLe(day, on)
    ensures CreatedOn(jobs, on) <= CreatedSince(jobs, day)
  {
    if jobs != [] {
      OnWithinSince(jobs[..|jobs| - 1], day, on);
    }
  }

  lemma CreatedAppend(jobs: seq<Job>, row: Job, day: Day)
    ensures CreatedOn(jobs + [row], day) == CreatedOn(jobs, day) + if row.created == day then 1 else 0
    ensures CreatedSince(jobs + [row], day) == CreatedSince(jobs, day) + if StringLe(day, row.created) then 1 else 0
  {
    assert (jobs + [row])[..|jobs|] == jobs;
  }

  /** The counter moves with the rows: every row counted is new since the day began, and no earlier day gains one. */
  ghost predicate Tracks(before: Loop, after: Loop, day: Day, on: Day) {
    && CreatedSince(after.jobs, day) - CreatedSince(before.jobs, day) == after.submitted - before.submitted
    && 0 <= CreatedOn(after.jobs, on) - CreatedOn(before.jobs, on) <= after.submitted - before.submitted
    && (!StringLe(day, on) ==> CreatedOn(after.jobs, on) == CreatedOn(before.jobs, on))
  }

  lemma VisitTracksCounter(cfg: Settings, day: Day, st: Loop, v: Visit, on: Day)
    requires StringLe(day, v.now)
    ensures var after := AfterVisit(cfg, day, st, v);
            && Tracks(st, after, day, on)
            && (after.submitted <= MaxJobs(cfg) || after == st)
  {
    var row := RowFor(cfg, day, v);
    CreatedAppend(st.jobs, row, day);
    CreatedAppend(st.jobs, row, on);
  }

  /** What the first `n` visits leave behind: the counter tracks the rows, and never passes the cap. */
  lemma {:induction false} VisitsTrackCounter(cfg: Settings, jobs: seq<Job>, t: Tick, n: nat, on: Day)
    requires n <= |t.visits| && ClockRuns(t)
    ensures var st := AfterVisits(cfg, t.day, Start(jobs, t), t.visits[..n]);
            && Tracks(Start(jobs, t), st, t.day, on)
            && (st.submitted <= MaxJobs(cfg) || st == Start(jobs, t))
  {
    if n > 0 {
      VisitsTrackCounter(cfg, jobs, t, n - 1, on);
      assert t.visits[..n][..n - 1] == t.visits[..n - 1];
      VisitTracksCounter(cfg, t.day, AfterVisits(cfg, t.day, Start(jobs, t), t.visits[..n - 1]), t.visits[n - 1], on);
    }
  }

  /** A tick that could count adds to no day beyond the cap; a tick that could not adds at most a cap's worth. */
  lemma TickGrowth(cfg: Settings, jobs: seq<Job>, t: Tick, on: Day)
    requires ClockRuns(t)
    ensures var after := CreatedOn(AfterTick(cfg, jobs, t), on);
            if t.counts then after == CreatedOn(jobs, on) || after <= MaxJobs(cfg)
            else after <= CreatedOn(jobs, on) + MaxJobs(cfg)
  {
    if cfg.active {
      var n := |t.visits|;
      assert t.visits[..n] == t.visits;
      VisitsTrackCounter(cfg, jobs, t, n, on);
      var st := AfterVisits(cfg, t.day, Start(jobs, t), t.visits);
      if StringLe(t.day, on) {
        OnWithinSince(st.jobs, t.day, on);
      }
    }
  }

  function UncountedTicks(ticks: seq<Tick>): nat {
    if ticks == [] then 0
    else UncountedTicks(ticks[..|ticks| - 1]) + if ticks[|ticks| - 1].counts then 0 else 1
  }

  /** Over any run the rows of one day stay within the cap, plus one cap for each tick whose count failed. */
  lemma {:induction false} DailyCap(cfg: Settings, jobs: seq<Job>, ticks: seq<Tick>, on: Day)
    requires CreatedOn(jobs, on) <= MaxJobs(cfg)
    requires forall i | 0 <= i < |ticks| :: ClockRuns(ticks[i])
    ensures CreatedOn(AfterTicks(cfg, jobs, ticks), on) <= MaxJobs(cfg) * (1 + UncountedTicks(ticks))
  {
    if ticks != [] {
      var m := |ticks| - 1;
      DailyCap(cfg, jobs, ticks[..m], on);
      var before := AfterTicks(cfg, jobs, ticks[..m]);
      TickGrowth(cfg, before, ticks[m], on);
      Grow(MaxJobs(cfg), UncountedTicks(ticks[..m]), ticks[m].counts,
           CreatedOn(before, on), CreatedOn(AfterTick(cfg, before, ticks[m]), on));
    }
  }

  lemma Grow(max: nat, n: nat, counts: bool, before: nat, after: nat)
    requires before <= max * (1 + n)
    requires if counts then after == before || after <= max else after <= before + max
    ensures after <= max * (1 + (n + if counts then 0 else 1))
  {
    assert 0 <= max * n;
    assert max * (1 + n) == max + max * n;
    assert max * (2 + n) == max + max + max * n;
  }

  lemma {:induction false} AllCounted(ticks: seq<Tick>)
    requires forall i | 0 <= i < |ticks| :: ticks[i].counts
    ensures UncountedTicks(ticks) == 0
  {
    if ticks != [] {
      AllCounted(ticks[..|ticks| - 1]);
    }
  }

  /** While counts succeed the drains planned for a day cost no more than the configured amount. */
  lemma PlannedSpendCapped(cfg: Settings, jobs: seq<Job>, ticks: seq<Tick>, on: Day)
    requires cfg.maxUsd >= 0.0 && CreatedOn(jobs, on) <= MaxJobs(cfg)
    requires forall i | 0 <= i < |ticks| :: ClockRuns(ticks[i]) && ticks[i].counts
    ensures CreatedOn(AfterTicks(cfg, jobs, ticks), on) <= MaxJobs(cfg)
    ensures PER_RUN_USD * CreatedOn(AfterTicks(cfg, jobs, ticks), on) as real <= cfg.maxUsd
  {
    DailyCap(cfg, jobs, ticks, on);
    AllCounted(ticks);
    var planned := CreatedOn(AfterTicks(cfg, jobs, ticks), on) as real;
    var share := cfg.maxUsd / PER_RUN_USD;
    assert planned <= MaxJobs(cfg) as real;
    assert MaxJobs(cfg) as real <= share;
    assert PER_RUN_USD * share == cfg.maxUsd;
  }

  // ---- When exactly the cap holds ---------------------------------------------------------------

  ghost predicate DistinctSources(visits: seq<Visit>) {
    forall i, j | 0 <= i < j < |visits| :: visits[i].source.id != visits[j].source.id
  }

  /** A backlog query throws: nothing after it is looked at. */
  predicate Halts(visits: seq<Visit>) {
    exists k | 0 <= k < |visits| :: visits[k].source.localPath != "" && visits[k].backlog.Err?
  }

  /** The source is due, has no drain for the day yet, and its checks go through. */
  predicate Lands(cfg: Settings, jobs: seq<Job>, day: Day, v: Visit) {
    Due(cfg, v) && !v.dupeCheckFails && !v.addFails && !HasKey(jobs, KeyOf(v.source.id, day))
  }

  /** How many drains the sources call for, cap aside. */
  function Demand(cfg: Settings, jobs: seq<Job>, day: Day, visits: seq<Visit>): nat {
    if visits == [] then 0
    else
      var front, last := visits[..|visits| - 1], visits[|visits| - 1];
      Demand(cfg, jobs, day, front) + if !Halts(front) && Lands(cfg, jobs, day, last) then 1 else 0
  }

  function Min(a: int, b: int): int {
    if a <= b then a else b
  }

  /** The slots a tick believes to be free. */
  function Room(cfg: Settings, jobs: seq<Job>, t: Tick): nat {
    var free := MaxJobs(cfg) - Start(jobs, t).submitted;
    if free < 0 then 0 else free
  }

  lemma HasKeyAppend(jobs: seq<Job>, row: Job, key: string)
    ensures HasKey(jobs + [row], key) <==> HasKey(jobs, key) || key == row.key
  {
    if HasKey(jobs, key) {
      var i :| 0 <= i < |jobs| && jobs[i].key == key;
      assert (jobs + [row])[i].key == key;
    }
    if key == row.key {
      assert (jobs + [row])[|jobs|].key == key;
    }
  }

  lemma {:induction false} VisitsOnlyAdd(cfg: Settings, day: Day, st: Loop, visits: seq<Visit>, key: string)
    ensures HasKey(st.jobs, key) ==> HasKey(AfterVisits(cfg, day, st, visits).jobs, key)
    ensures HasKey(AfterVisits(cfg, day, st, visits).jobs, key) ==>
              HasKey(st.jobs, key) || exists k | 0 <= k < |visits| :: key == KeyOf(visits[k].source.id, day)
  {
    if visits != [] {
      var m := |visits| - 1;
      VisitsOnlyAdd(cfg, day, st, visits[..m], key);
      var before := AfterVisits(cfg, day, st, visits[..m]);
      HasKeyAppend(before.jobs, RowFor(cfg, day, visits[m]), key);
    }
  }

  lemma NewToTheTick(cfg: Settings, day: Day, st: Loop, visits: seq<Visit>)
    requires visits != [] && DistinctSources(visits)
    ensures var m := |visits| - 1;
            var key := KeyOf(visits[m].source.id, day);
            HasKey(AfterVisits(cfg, day, st, visits[..m]).jobs, key) <==> HasKey(st.jobs, key)
  {
    var m := |visits| - 1;
    var key := KeyOf(visits[m].source.id, day);
    VisitsOnlyAdd(cfg, day, st, visits[..m], key);
    if exists k | 0 <= k < m :: key == KeyOf(visits[..m][k].source.id, day) {
      var k :| 0 <= k < m && key == KeyOf(visits[..m][k].source.id, day);
      KeyInjective(visits[m].source.id, day, visits[k].source.id, day);
      assert false;
    }
  }

  lemma HaltsStep(visits: seq<Visit>)
    requires visits != []
    ensures var m := |visits| - 1;
            Halts(visits) <==> Halts(visits[..m]) || (visits[m].source.localPath != "" && visits[m].backlog.Err?)
  {
    var m := |visits| - 1;
    if Halts(visits[..m]) {
      var k :| 0 <= k < m && visits[..m][k].source.localPath != "" && visits[..m][k].backlog.Err?;
      assert visits[k].source.localPath != "" && visits[k].backlog.Err?;
    }
    if Halts(visits) && !(visits[m].source.localPath != "" && visits[m].backlog.Err?) {
      var k :| 0 <= k < |visits| && visits[k].source.localPath != "" && visits[k].backlog.Err?;
      assert visits[..m][k].source.localPath != "" && visits[..m][k].backlog.Err?;
    }
  }

  /** The loop submits what the sources call for, up to the slots it believes to be free. */
  lemma {:induction false} SubmitsExactly(cfg: Settings, jobs: seq<Job>, t: Tick, visits: seq<Visit>)
    requires DistinctSources(visits)
    ensures var st := AfterVisits(cfg, t.day, Start(jobs, t), visits);
            && st.submitted == Start(jobs, t).submitted + Min(Room(cfg, jobs, t), Demand(cfg, jobs, t.day, visits))
            && (st.aborted ==> Halts(visits))
            && (Halts(visits) ==> st.aborted || st.submitted >= MaxJobs(cfg))
  {
    if visits != [] {
      var m := |visits| - 1;
      SubmitsExactly(cfg, jobs, t, visits[..m]);
      NewToTheTick(cfg, t.day, Start(jobs, t), visits);
      HaltsStep(visits);
    }
  }

  /** Starting within the cap, a tick ends within it iff its count query answered, or no drain was there to be
      missed, or there is room for everything the sources call for. */
  lemma TickKeepsCapIff(cfg: Settings, jobs: seq<Job>, t: Tick)
    requires cfg.active && ClockRuns(t) && DistinctSources(t.visits)
    requires CreatedSince(jobs, t.day) <= MaxJobs(cfg)
    ensures CreatedSince(AfterTick(cfg, jobs, t), t.day) <= MaxJobs(cfg) <==>
            || t.counts
            || CreatedSince(jobs, t.day) == 0
            || CreatedSince(jobs, t.day) + Demand(cfg, jobs, t.day, t.visits) <= MaxJobs(cfg)
  {
    SubmitsExactly(cfg, jobs, t, t.visits);
    VisitsTrackCounter(cfg, jobs, t, |t.visits|, t.day);
    assert t.visits[..|t.visits|] == t.visits;
  }

  /** Treating a failed count as zero can pass the cap: with room for one drain a day, two are created. */
  lemma FailedCountOvershoots(day: Day)
    ensures var cfg := Settings(true, 25, 0.3, 120);
            var jobs := [Job(KeyOf("a", day), day, Source("a", "/a"), 120)];
            var t := Tick(day, false, [Visit(Source("b", "/b"), Ok(Some(26)), false, false, day)]);
            && MaxJobs(cfg) == 1 && CreatedOn(jobs, day) == 1
            && CreatedOn(AfterTick(cfg, jobs, t), day) == 2
  {
    var cfg := Settings(true, 25, 0.3, 120);
    var jobs := [Job(KeyOf("a", day), day, Source("a", "/a"), 120)];
    var v := Visit(Source("b", "/b"), Ok(Some(26)), false, false, day);
    var t := Tick(day, false, [v]);
    assert cfg.maxUsd / PER_RUN_USD == 1.0;
    if KeyOf("a", day) == KeyOf("b", day) {
      KeyInjective("a", day, "b", day);
      assert false;
    }
    assert !HasKey(jobs, KeyOf("b", day));
    assert [v][..0] == [] && [v][|[v]| - 1] == v;
    assert AfterVisits(cfg, day, Start(jobs, t), [v][..0]) == Loop(jobs, 0, false);
    var row := Job(KeyOf("b", day), day, Source("b", "/b"), 120);
    assert AfterVisits(cfg, day, Start(jobs, t), [v]) == Loop(jobs + [row], 1, false);
    assert (jobs + [row])[..1] == jobs && jobs[..0] == [];
  }

  // ---- One drain per source and day -------------------------------------------------------------

  lemma KeyInjective(a: string, d: Day, b: string, e: Day)
    requires KeyOf(a, d) == KeyOf(b, e)
    ensures a == b && d == e
  {
    var prefix := "autopilot-extract-atoms-drain:";
    var x, y := KeyOf(a, d), KeyOf(b, e);
    assert x[|prefix|..|x| - 11] == a && y[|prefix|..|y| - 11] == b;
    assert x[|x| - 10..] == d && y[|y| - 10..] == e;
  }

  ghost predicate KeysDistinct(jobs: seq<Job>) {
    forall i, j | 0 <= i < j < |jobs| :: jobs[i].key != jobs[j].key
  }

  lemma {:induction false} VisitsKeepKeys(cfg: Settings, day: Day, st: Loop, visits: seq<Visit>)
    requires KeysDistinct(st.jobs)
    ensures KeysDistinct(AfterVisits(cfg, day, st, visits).jobs)
  {
    if visits != [] {
      VisitsKeepKeys(cfg, day, st, visits[..|visits| - 1]);
    }
  }

  lemma {:induction false} TicksKeepKeys(cfg: Settings, jobs: seq<Job>, ticks: seq<Tick>)
    requires KeysDistinct(jobs)
    ensures KeysDistinct(AfterTicks(cfg, jobs, ticks))
  {
    if ticks != [] {
      var m := |ticks| - 1;
      TicksKeepKeys(cfg, jobs, ticks[..m]);
      var before := AfterTicks(cfg, jobs, ticks[..m]);
      VisitsKeepKeys(cfg, ticks[m].day, Start(before, ticks[m]), ticks[m].visits);
    }
  }

  /** Over any run, failed counts included, two rows for the same source carry different days. */
  lemma OneDrainPerSourceAndDay(cfg: Settings, jobs: seq<Job>, ticks: seq<Tick>, i: nat, j: nat,
                                a: string, d: Day, b: string, e: Day)
    requires KeysDistinct(jobs)
    requires i < j < |AfterTicks(cfg, jobs, ticks)|
    requires AfterTicks(cfg, jobs, ticks)[i].key == KeyOf(a, d)
    requires AfterTicks(cfg, jobs, ticks)[j].key == KeyOf(b, e)
    ensures a != b || d != e
  {
    TicksKeepKeys(cfg, jobs, ticks);
  }

  // ---- The drain does happen --------------------------------------------------------------------

  ghost predicate Answers(v: Visit) {
    v.backlog.Ok? && !v.dupeCheckFails && !v.addFails
  }

  lemma {:induction false} VisitsServe(cfg: Settings, day: Day, st: Loop, visits: seq<Visit>, i: nat)
    requires i < |visits| && Due(cfg, visits[i]) && !st.aborted
    requires forall k | 0 <= k < |visits| :: Answers(visits[k])
    ensures var end := AfterVisits(cfg, day, st, visits);
            && !end.aborted
            && (end.submitted >= MaxJobs(cfg) || HasKey(end.jobs, KeyOf(visits[i].source.id, day)))
  {
    var m := |visits| - 1;
    var before := AfterVisits(cfg, day, st, visits[..m]);
    var end := AfterVisits(cfg, day, st, visits);
    if i < m {
      VisitsServe(cfg, day, st, visits[..m], i);
    } else {
      NotAborted(cfg, day, st, visits[..m]);
    }
    var key := KeyOf(visits[i].source.id, day);
    if HasKey(before.jobs, key) {
      var k :| 0 <= k < |before.jobs| && before.jobs[k].key == key;
      assert end.jobs[k].key == key;
    } else if i == m && before.submitted < MaxJobs(cfg) {
      assert end.jobs[|before.jobs|].key == key;
    }
  }

  lemma {:induction false} NotAborted(cfg: Settings, day: Day, st: Loop, visits: seq<Visit>)
    requires !st.aborted && forall k | 0 <= k < |visits| :: Answers(visits[k])
    ensures !AfterVisits(cfg, day, st, visits).aborted
  {
    if visits != [] {
      NotAborted(cfg, day, st, visits[..|visits| - 1]);
    }
  }

  /** When every service answers, a tick leaves each source due for a drain with a job keyed to the day,
      unless the rows created since the day began have used up the cap. */
  lemma TickServesDueSources(cfg: Settings, jobs: seq<Job>, t: Tick, i: nat)
    requires cfg.active && t.counts && ClockRuns(t) && i < |t.visits| && Due(cfg, t.visits[i])
    requires forall k | 0 <= k < |t.visits| :: Answers(t.visits[k])
    ensures HasKey(AfterTick(cfg, jobs, t), KeyOf(t.visits[i].source.id, t.day))
            || CreatedSince(AfterTick(cfg, jobs, t), t.day) >= MaxJobs(cfg)
  {
    VisitsServe(cfg, t.day, Start(jobs, t), t.visits, i);
    VisitsTrackCounter(cfg, jobs, t, |t.visits|, t.day);
    assert t.visits[..|t.visits|] == t.visits;
  }
}
