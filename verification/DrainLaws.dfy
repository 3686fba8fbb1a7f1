/** Which drains a tick queues, told in the configured amount, the backlogs and the rows. */
module DrainLaws {
  import opened Results
  import opened Orders
  import opened DrainCap

  /** The cap is the largest number of drains the configured amount pays for; a negative amount pays for none. */
  lemma CapIsLargest(cfg: Settings)
    ensures cfg.maxUsd >= 0.0 ==> MaxJobs(cfg) as real * 0.3 <= cfg.maxUsd < (MaxJobs(cfg) + 1) as real * 0.3
    ensures cfg.maxUsd < 0.0 ==> MaxJobs(cfg) == 0
  {
    var share := cfg.maxUsd / 0.3;
    assert share * 0.3 == cfg.maxUsd;
  }

  /** The source is registered with a path, its backlog is known to exceed the threshold, and its checks go through. */
  predicate Wanted(cfg: Settings, v: Visit) {
    && v.source.localPath != "" && !v.dupeCheckFails && !v.addFails
    && match v.backlog
       case Ok(Some(backlog)) => backlog > cfg.threshold
       case _ => false
  }

  /** The row a visit asks for: keyed to the source and the day, to drain that source. */
  function RowOf(cfg: Settings, day: Day, v: Visit): Job {
    Job("autopilot-extract-atoms-drain:" + v.source.id + ":" + day, v.now, v.source, cfg.window)
  }

  /** Some visit wants this row. */
  ghost predicate Asked(cfg: Settings, day: Day, visits: seq<Visit>, row: Job) {
    exists i | 0 <= i < |visits| :: Wanted(cfg, visits[i]) && row == RowOf(cfg, day, visits[i])
  }

  lemma AskedStep(cfg: Settings, day: Day, visits: seq<Visit>, row: Job)
    requires visits != []
    ensures Asked(cfg, day, visits[..|visits| - 1], row) ==> Asked(cfg, day, visits, row)
    ensures var v := visits[|visits| - 1]; Wanted(cfg, v) && row == RowOf(cfg, day, v) ==> Asked(cfg, day, visits, row)
  {
    var m := |visits| - 1;
    if Asked(cfg, day, visits[..m], row) {
      var i :| 0 <= i < m && Wanted(cfg, visits[..m][i]) && row == RowOf(cfg, day, visits[..m][i]);
      assert Wanted(cfg, visits[i]) && row == RowOf(cfg, day, visits[i]);
    }
  }

  /** One visit adds its row or nothing. */
  lemma VisitQueues(cfg: Settings, day: Day, st: Loop, v: Visit)
    ensures var after := AfterVisit(cfg, day, st, v);
            || (after.jobs == st.jobs && after.submitted == st.submitted)
            || (&& Wanted(cfg, v) && !HasKey(st.jobs, RowOf(cfg, day, v).key)
                && after.jobs == st.jobs + [RowOf(cfg, day, v)] && after.submitted == st.submitted + 1)
  {
  }

  lemma {:induction false} VisitsQueue(cfg: Settings, day: Day, st: Loop, visits: seq<Visit>) returns (more: seq<Job>)
    ensures AfterVisits(cfg, day, st, visits).jobs == st.jobs + more
    ensures AfterVisits(cfg, day, st, visits).submitted == st.submitted + |more|
    ensures forall row | row in more :: Asked(cfg, day, visits, row) && !HasKey(st.jobs, row.key)
  {
    if visits == [] {
      more := [];
    } else {
      var m := |visits| - 1;
      var before := VisitsQueue(cfg, day, st, visits[..m]);
      var v, at := visits[m], AfterVisits(cfg, day, st, visits[..m]);
      var after := AfterVisit(cfg, day, at, v);
      VisitQueues(cfg, day, at, v);
      more := if after.jobs == at.jobs then before else before + [RowOf(cfg, day, v)];
      assert st.jobs + before + [RowOf(cfg, day, v)] == st.jobs + (before + [RowOf(cfg, day, v)]);
      KeptKeys(st.jobs, before, RowOf(cfg, day, v).key);
      forall row | row in more ensures Asked(cfg, day, visits, row) {
        AskedStep(cfg, day, visits, row);
      }
    }
  }

  lemma KeptKeys(jobs: seq<Job>, more: seq<Job>, key: string)
    ensures HasKey(jobs, key) ==> HasKey(jobs + more, key)
  {
    if HasKey(jobs, key) {
      var i :| 0 <= i < |jobs| && jobs[i].key == key;
      assert (jobs + more)[i].key == key;
    }
  }

  /** A tick only appends, and only rows for visited sources whose backlog exceeds the threshold, under keys the
      queue did not hold, naming the source and the day read, created when the visit says, to drain
      that source; switched off it appends none. */
  lemma QueuesOnlyWanted(cfg: Settings, jobs: seq<Job>, t: Tick) returns (more: seq<Job>)
    ensures AfterTick(cfg, jobs, t) == jobs + more
    ensures !cfg.active ==> more == []
    ensures forall row | row in more ::
              && (forall i | 0 <= i < |jobs| :: jobs[i].key != row.key)
              && Asked(cfg, t.day, t.visits, row)
  {
    if cfg.active {
      more := VisitsQueue(cfg, t.day, Start(jobs, t), t.visits);
    } else {
      more := [];
    }
  }

  /** A wanted source the loop gets to has its row for the day when slots are left afterwards. */
  lemma {:induction false} VisitsServeWanted(cfg: Settings, day: Day, st: Loop, visits: seq<Visit>, i: nat)
    requires i < |visits| && Wanted(cfg, visits[i]) && !AfterVisits(cfg, day, st, visits[..i]).aborted
    ensures var end := AfterVisits(cfg, day, st, visits);
            end.submitted >= MaxJobs(cfg) || HasKey(end.jobs, RowOf(cfg, day, visits[i]).key)
  {
    var m := |visits| - 1;
    var before, end := AfterVisits(cfg, day, st, visits[..m]), AfterVisits(cfg, day, st, visits);
    var key := RowOf(cfg, day, visits[i]).key;
    if i < m {
      assert visits[..m][..i] == visits[..i];
      VisitsServeWanted(cfg, day, st, visits[..m], i);
      if HasKey(before.jobs, key) {
        var k :| 0 <= k < |before.jobs| && before.jobs[k].key == key;
        assert end.jobs[k].key == key;
      }
    } else {
      if before.submitted < MaxJobs(cfg) && !HasKey(before.jobs, key) {
        assert end.jobs[|before.jobs|].key == key;
      }
    }
  }

  lemma {:induction false} StaysOpen(cfg: Settings, day: Day, st: Loop, visits: seq<Visit>)
    requires !st.aborted && forall k | 0 <= k < |visits| :: visits[k].source.localPath == "" || visits[k].backlog.Ok?
    ensures !AfterVisits(cfg, day, st, visits).aborted
  {
    if visits != [] {
      StaysOpen(cfg, day, st, visits[..|visits| - 1]);
    }
  }

  /** A wanted source that the tick gets to has a row keyed to it and the day afterwards, unless the amount pays
      for no further drain. */
  lemma WantedIsQueued(cfg: Settings, jobs: seq<Job>, t: Tick, i: nat)
    requires cfg.active && t.counts && ClockRuns(t) && i < |t.visits| && Wanted(cfg, t.visits[i])
    requires forall k | 0 <= k < i :: t.visits[k].source.localPath == "" || t.visits[k].backlog.Ok?
    ensures var after, key := AfterTick(cfg, jobs, t), "autopilot-extract-atoms-drain:" + t.visits[i].source.id + ":" + t.day;
            || (exists k | 0 <= k < |after| :: after[k].key == key)
            || (CreatedSince(after, t.day) + 1) as real * 0.3 > cfg.maxUsd
  {
    StaysOpen(cfg, t.day, Start(jobs, t), t.visits[..i]);
    VisitsServeWanted(cfg, t.day, Start(jobs, t), t.visits, i);
    VisitsTrackCounter(cfg, jobs, t, |t.visits|, t.day);
    assert t.visits[..|t.visits|] == t.visits;
    CapIsLargest(cfg);
  }

  /** A source gets a slot only after every wanted source seen before it has its row for the day. */
  lemma EarlierFirst(cfg: Settings, jobs: seq<Job>, t: Tick, i: nat, j: nat)
    requires DistinctSources(t.visits) && i < j < |t.visits| && Wanted(cfg, t.visits[i])
    requires HasKey(AfterTick(cfg, jobs, t), KeyOf(t.visits[j].source.id, t.day))
    requires !HasKey(jobs, KeyOf(t.visits[j].source.id, t.day))
    ensures HasKey(AfterTick(cfg, jobs, t), RowOf(cfg, t.day, t.visits[i]).key)
  {
    var start, upTo := Start(jobs, t), t.visits[..j];
    var at, key := AfterVisits(cfg, t.day, start, upTo), KeyOf(t.visits[j].source.id, t.day);
    assert t.visits[..j + 1][..j] == upTo;
    NewToTheTick(cfg, t.day, start, t.visits[..j + 1]);
    if at.aborted || at.submitted >= MaxJobs(cfg) {
      DoneVisitsIdle(cfg, t.day, start, t.visits, j);
      assert false;
    }
    assert upTo[..i] == t.visits[..i];
    if AfterVisits(cfg, t.day, start, upTo[..i]).aborted {
      DoneVisitsIdle(cfg, t.day, start, upTo, i);
      assert false;
    }
    VisitsServeWanted(cfg, t.day, start, upTo, i);
    var row := RowOf(cfg, t.day, t.visits[i]);
    LaterKeep(cfg, t.day, start, t.visits, j, row.key);
  }

  lemma {:induction false} LaterKeep(cfg: Settings, day: Day, st: Loop, visits: seq<Visit>, j: nat, key: string)
    requires j <= |visits| && HasKey(AfterVisits(cfg, day, st, visits[..j]).jobs, key)
    ensures HasKey(AfterVisits(cfg, day, st, visits).jobs, key)
  {
    var m := |visits| - 1;
    if j == |visits| {
      assert visits[..j] == visits;
    } else {
      assert visits[..m][..j] == visits[..j];
      LaterKeep(cfg, day, st, visits[..m], j, key);
      VisitQueues(cfg, day, AfterVisits(cfg, day, st, visits[..m]), visits[m]);
      KeptKeys(AfterVisits(cfg, day, st, visits[..m]).jobs, [RowOf(cfg, day, visits[m])], key);
    }
  }

  // ---------------------------------------------------------------- the counts

  function PlacesOn(jobs: seq<Job>, day: Day): set<int> {
    set i | 0 <= i < |jobs| && jobs[i].created == day
  }

  function PlacesSince(jobs: seq<Job>, day: Day): set<int> {
    set i | 0 <= i < |jobs| && StringLe(day, jobs[i].created)
  }

  lemma OnStep(jobs: seq<Job>, day: Day)
    requires jobs != []
    ensures var m := |jobs| - 1;
            |PlacesOn(jobs, day)| == |PlacesOn(jobs[..m], day)| + if jobs[m].created == day then 1 else 0
  {
    var m := |jobs| - 1;
    var front, last := jobs[..m], jobs[m];
    forall i ensures i in PlacesOn(jobs, day) <==> i in PlacesOn(front, day) || (i == m && last.created == day) {
      assert 0 <= i < m ==> front[i] == jobs[i];
    }
    assert PlacesOn(jobs, day) == PlacesOn(front, day) + if last.created == day then {m} else {};
  }

  lemma SinceStep(jobs: seq<Job>, day: Day)
    requires jobs != []
    ensures var m := |jobs| - 1;
            |PlacesSince(jobs, day)| == |PlacesSince(jobs[..m], day)| + if StringLe(day, jobs[m].created) then 1 else 0
  {
    var m := |jobs| - 1;
    var front, last := jobs[..m], jobs[m];
    forall i ensures i in PlacesSince(jobs, day) <==> i in PlacesSince(front, day) || (i == m && StringLe(day, last.created)) {
      assert 0 <= i < m ==> front[i] == jobs[i];
    }
    assert PlacesSince(jobs, day) == PlacesSince(front, day) + if StringLe(day, last.created) then {m} else {};
  }

  /** The counts are numbers of rows. */
  lemma {:induction false} CountsRows(jobs: seq<Job>, day: Day)
    ensures CreatedOn(jobs, day) == |PlacesOn(jobs, day)| && CreatedSince(jobs, day) == |PlacesSince(jobs, day)|
  {
    if jobs != [] {
      CountsRows(jobs[..|jobs| - 1], day);
      OnStep(jobs, day);
      SinceStep(jobs, day);
    }
  }
}
