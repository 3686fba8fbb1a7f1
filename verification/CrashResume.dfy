/** What crashing and resuming the benchmark run can and cannot change. */
module CrashResume {
  import opened Results
  import opened LongMemEval

  /** A header comes first, and every row below it was scored under its configuration. */
  ghost predicate Honest(score: Scorer, lines: seq<Line>) {
    && lines != [] && lines[0].Header?
    && forall i | 1 <= i < |lines| :: lines[i].Scored? && lines[i].row == RowFor(score, lines[0].config, lines[i].row.id)
  }

  ghost predicate HonestDisk(score: Scorer, disk: Disk) {
    disk.checkpoint.Some? ==> Honest(score, disk.checkpoint.value)
  }

  ghost predicate TrueRows(score: Scorer, config: Config, done: map<string, Row>) {
    forall id | id in done :: done[id] == RowFor(score, config, id)
  }

  lemma {:induction false} HonestRows(score: Scorer, config: Config, lines: seq<Line>)
    requires forall i | 0 <= i < |lines| :: lines[i].Scored? && lines[i].row == RowFor(score, config, lines[i].row.id)
    ensures TrueRows(score, config, DoneOf(lines))
  {
    if lines != [] {
      HonestRows(score, config, lines[..|lines| - 1]);
    }
  }

  /** There is a header, and every row the loader would keep is right under it. */
  ghost predicate Sound(score: Scorer, lines: seq<Line>) {
    lines != [] && lines[0].Header? && TrueRows(score, lines[0].config, DoneOf(lines[1..]))
  }

  ghost predicate SoundDisk(score: Scorer, disk: Disk) {
    disk.checkpoint.Some? ==> Sound(score, disk.checkpoint.value)
  }

  lemma HonestIsSound(score: Scorer, disk: Disk)
    requires HonestDisk(score, disk)
    ensures SoundDisk(score, disk)
  {
    if disk.checkpoint.Some? {
      var lines := disk.checkpoint.value;
      HonestRows(score, lines[0].config, lines[1..]);
    }
  }

  lemma RowAppended(score: Scorer, lines: seq<Line>, id: string)
    requires Sound(score, lines)
    ensures var after := lines + [Scored(RowFor(score, lines[0].config, id))];
            Sound(score, after) && (Honest(score, lines) ==> Honest(score, after))
  {
    var line := Scored(RowFor(score, lines[0].config, id));
    assert (lines + [line])[1..] == lines[1..] + [line];
    assert (lines[1..] + [line])[..|lines[1..]|] == lines[1..];
  }

  lemma {:induction false} ScoreAllHonest(score: Scorer, config: Config, lines: seq<Line>, done: map<string, Row>,
                                          sample: seq<string>, budget: nat)
    requires Sound(score, lines) && lines[0].config == config && TrueRows(score, config, done)
    ensures var s := ScoreAll(score, config, lines, done, sample, budget);
            && Sound(score, s.lines) && (Honest(score, lines) ==> Honest(score, s.lines))
            && (s.budget.Some? ==> s.rows == RowsFor(score, config, sample))
    decreases |sample|
  {
    if sample != [] {
      var id := sample[0];
      if id in done {
        ScoreAllHonest(score, config, lines, done, sample[1..], budget);
      } else if budget >= 2 {
        RowAppended(score, lines, id);
        ScoreAllHonest(score, config, lines + [Scored(RowFor(score, config, id))], done, sample[1..], budget - 2);
      }
    }
  }

  /** The run reports its own sample scored once, in order, under its own configuration. */
  ghost predicate Reports(score: Scorer, config: Config, sample: seq<string>, r: RunResult) {
    r.status.Finished? ==> r.status.rows == RowsFor(score, config, sample) && r.disk.results == Some(r.status.rows)
  }

  lemma ContinueHonest(score: Scorer, config: Config, disk: Disk, lines: seq<Line>, done: map<string, Row>,
                       sample: seq<string>, budget: nat)
    requires Sound(score, lines) && lines[0].config == config && TrueRows(score, config, done)
    ensures var r := Continue(score, config, disk, lines, done, sample, budget);
            && SoundDisk(score, r.disk) && (Honest(score, lines) ==> HonestDisk(score, r.disk))
            && Reports(score, config, sample, r)
  {
    ScoreAllHonest(score, config, lines, done, sample, budget);
  }

  /** From a sound checkpoint a run keeps it sound, keeps it honest if it was, and reports its
      own sample. */
  lemma RunHonest(score: Scorer, config: Config, disk: Disk, sample: seq<string>, anew: bool, budget: nat)
    requires SoundDisk(score, disk)
    ensures var r := RunSpec(score, config, disk, sample, anew, budget);
            && SoundDisk(score, r.disk) && (HonestDisk(score, disk) ==> HonestDisk(score, r.disk))
            && Reports(score, config, sample, r)
  {
    if disk.checkpoint.Some? && !anew {
      var lines := disk.checkpoint.value;
      if lines[0].config == config {
        ContinueHonest(score, config, disk, lines, DoneOf(lines[1..]), sample, budget);
      }
    } else if budget > 0 {
      assert [Header(config)][1..] == [];
      ContinueHonest(score, config, disk, [Header(config)], map[], sample, budget - 1);
      if budget > 1 {
        ContinueHonest(score, config, disk.(checkpoint := None), [Header(config)], map[], sample, budget - 2);
      }
    }
  }

  // ---------------------------------------------------------------- any history

  datatype Invocation = Invocation(config: Config, sample: seq<string>, anew: bool, budget: nat)

  function DiskAfter(score: Scorer, disk: Disk, runs: seq<Invocation>): Disk {
    if runs == [] then disk
    else
      var last := runs[|runs| - 1];
      RunSpec(score, last.config, DiskAfter(score, disk, runs[..|runs| - 1]), last.sample, last.anew, last.budget).disk
  }

  lemma {:induction false} HistoryHonest(score: Scorer, disk: Disk, runs: seq<Invocation>)
    requires SoundDisk(score, disk)
    ensures SoundDisk(score, DiskAfter(score, disk, runs))
    ensures HonestDisk(score, disk) ==> HonestDisk(score, DiskAfter(score, disk, runs))
  {
    if runs != [] {
      var last := runs[|runs| - 1];
      HistoryHonest(score, disk, runs[..|runs| - 1]);
      RunHonest(score, last.config, DiskAfter(score, disk, runs[..|runs| - 1]), last.sample, last.anew, last.budget);
    }
  }

  /** Whatever configurations, samples, crashes and restarts came before, a run that
      finishes reports exactly its sample scored once, in order, under its configuration. */
  lemma FinishedRowsAreFresh(score: Scorer, runs: seq<Invocation>, config: Config, sample: seq<string>, anew: bool, budget: nat)
    ensures var disk := DiskAfter(score, Disk(None, None), runs);
            Reports(score, config, sample, RunSpec(score, config, disk, sample, anew, budget))
  {
    HistoryHonest(score, Disk(None, None), runs);
    RunHonest(score, config, DiskAfter(score, Disk(None, None), runs), sample, anew, budget);
  }

  /** Whatever came before, no checkpoint row was scored under another configuration than
      the one its header names. */
  lemma RowsMatchHeader(score: Scorer, runs: seq<Invocation>)
    ensures HonestDisk(score, DiskAfter(score, Disk(None, None), runs))
  {
    HistoryHonest(score, Disk(None, None), runs);
  }

  // ---------------------------------------------------------------- which checkpoints are safe

  /** After `runs` from a checkpoint holding `lines`, the run `last` reports its own sample. */
  ghost predicate FreshFrom(score: Scorer, lines: seq<Line>, runs: seq<Invocation>, last: Invocation) {
    var disk := DiskAfter(score, Disk(Some(lines), None), runs);
    Reports(score, last.config, last.sample, RunSpec(score, last.config, disk, last.sample, last.anew, last.budget))
  }

  function OneQuestion(config: Config, id: string): Invocation {
    Invocation(config, [id], false, 2)
  }

  /** A row the loader keeps is reported as it stands. */
  lemma HeldRowReported(score: Scorer, disk: Disk, config: Config, id: string, done: map<string, Row>)
    requires disk.checkpoint.Some? && Load(disk.checkpoint.value, config) == Resume(done) && id in done
    ensures RunSpec(score, config, disk, [id], false, 2).status == Finished([done[id]])
    ensures done[id] != RowFor(score, config, id) ==> !Reports(score, config, [id], RunSpec(score, config, disk, [id], false, 2))
  {
    var lines := disk.checkpoint.value;
    assert [id][1..] == [];
    assert ScoreAll(score, config, lines, done, [id][1..], 2) == Scoring(lines, [], 0, Some(2));
    assert ScoreAll(score, config, lines, done, [id], 2) == Scoring(lines, [done[id]], 0, Some(2));
    assert RowsFor(score, config, [id])[0] == RowFor(score, config, id);
  }

  /** Without a header a crash after one scoring leaves a row that the loader keeps for any
      configuration. */
  lemma HeaderlessRowKept(score: Scorer, lines: seq<Line>, a: Config, id: string)
    requires (lines == [] || !lines[0].Header?) && id !in DoneOf(lines)
    ensures DiskAfter(score, Disk(Some(lines), None), [OneQuestion(a, id)])
            == Disk(Some(lines + [Scored(RowFor(score, a, id))]), None)
    ensures DoneOf(lines + [Scored(RowFor(score, a, id))]) == DoneOf(lines)[id := RowFor(score, a, id)]
  {
    var line := Scored(RowFor(score, a, id));
    assert [id][1..] == [] && [OneQuestion(a, id)][..0] == [];
    assert (lines + [line])[..|lines|] == lines;
    assert ScoreAll(score, a, lines + [line], DoneOf(lines), [id][1..], 0) == Scoring(lines + [line], [], 0, Some(0));
    assert ScoreAll(score, a, lines, DoneOf(lines), [id], 2)
        == Scoring(lines + [line], [RowFor(score, a, id)], 1, Some(0));
  }

  /** Without a header two configurations that score a question differently get mixed. */
  lemma HeaderlessMixes(score: Scorer, lines: seq<Line>, a: Config, b: Config, id: string)
    returns (runs: seq<Invocation>, last: Invocation)
    requires (lines == [] || !lines[0].Header?) && score(a, id) != score(b, id)
    ensures !FreshFrom(score, lines, runs, last)
  {
    var start := Disk(Some(lines), None);
    if id in DoneOf(lines) {
      var held := DoneOf(lines)[id];
      runs, last := [], OneQuestion(if held == RowFor(score, a, id) then b else a, id);
      HeldRowReported(score, start, last.config, id, DoneOf(lines));
    } else {
      runs, last := [OneQuestion(a, id)], OneQuestion(b, id);
      HeaderlessRowKept(score, lines, a, id);
      var after := lines + [Scored(RowFor(score, a, id))];
      HeldRowReported(score, DiskAfter(score, start, runs), b, id, DoneOf(after));
    }
  }

  /** A wrong row below its header is reported. */
  lemma WrongRowReported(score: Scorer, lines: seq<Line>, id: string)
    requires lines != [] && lines[0].Header? && id in DoneOf(lines[1..])
    requires DoneOf(lines[1..])[id] != RowFor(score, lines[0].config, id)
    ensures !FreshFrom(score, lines, [], OneQuestion(lines[0].config, id))
  {
    HeldRowReported(score, Disk(Some(lines), None), lines[0].config, id, DoneOf(lines[1..]));
  }

  /** Exactly the safe checkpoints: when some question tells two configurations apart, every
      finished run of every history from a checkpoint reports its own sample iff the checkpoint
      has a header and the rows the loader keeps are right under it. */
  lemma SafeIffSound(score: Scorer, lines: seq<Line>, a: Config, b: Config, id: string)
    requires score(a, id) != score(b, id)
    ensures (forall runs, last :: FreshFrom(score, lines, runs, last)) <==> Sound(score, lines)
  {
    if Sound(score, lines) {
      forall runs, last ensures FreshFrom(score, lines, runs, last) {
        HistoryHonest(score, Disk(Some(lines), None), runs);
        RunHonest(score, last.config, DiskAfter(score, Disk(Some(lines), None), runs), last.sample, last.anew, last.budget);
      }
    } else if lines == [] || !lines[0].Header? {
      var runs, last := HeaderlessMixes(score, lines, a, b, id);
    } else {
      var wrong :| wrong in DoneOf(lines[1..]) && DoneOf(lines[1..])[wrong] != RowFor(score, lines[0].config, wrong);
      WrongRowReported(score, lines, wrong);
    }
  }

  lemma {:induction false} HeadersHoldNoRows(lines: seq<Line>)
    requires forall i | 0 <= i < |lines| :: lines[i].Header?
    ensures DoneOf(lines) == map[]
  {
    if lines != [] {
      HeadersHoldNoRows(lines[..|lines| - 1]);
    }
  }

  /** Why the header has to be written whole: a checkpoint without rows is safe iff it is not empty. */
  lemma HeaderMakesSafe(score: Scorer, lines: seq<Line>, a: Config, b: Config, id: string)
    requires score(a, id) != score(b, id) && forall i | 0 <= i < |lines| :: lines[i].Header?
    ensures (forall runs, last :: FreshFrom(score, lines, runs, last)) <==> lines != []
  {
    SafeIffSound(score, lines, a, b, id);
    if lines != [] {
      HeadersHoldNoRows(lines[1..]);
    }
  }

  /** The mixing, step by step: with an empty checkpoint left behind, a row scored under one
      configuration is reported under another. */
  lemma TornHeaderMixesConfigs(score: Scorer, a: Config, b: Config, id: string)
    requires score(a, id) != score(b, id)
    ensures var torn := Disk(Some([]), None);
            var first := RunSpec(score, a, torn, [id], false, 2);
            var second := RunSpec(score, b, first.disk, [id], false, 2);
            && first.status == Crashed
            && second.status == Finished([RowFor(score, a, id)]) && [RowFor(score, a, id)] != RowsFor(score, b, [id])
  {
    HeaderlessRowKept(score, [], a, id);
    var first := RunSpec(score, a, Disk(Some([]), None), [id], false, 2);
    assert [OneQuestion(a, id)][..0] == [];
    assert first.disk == DiskAfter(score, Disk(Some([]), None), [OneQuestion(a, id)]);
    HeldRowReported(score, first.disk, b, id, DoneOf([] + [Scored(RowFor(score, a, id))]));
    assert RowsFor(score, b, [id])[0] == RowFor(score, b, id);
  }

  // ---------------------------------------------------------------- removal

  /** The questions a checkpoint holds rows for, as the loader sees them. */
  function Held(lines: seq<Line>): map<string, Row> {
    if lines != [] && lines[0].Header? then DoneOf(lines[1..]) else DoneOf(lines)
  }

  lemma {:induction false} ScoreAllAppends(score: Scorer, config: Config, lines: seq<Line>, done: map<string, Row>,
                                           sample: seq<string>, budget: nat)
    ensures lines <= ScoreAll(score, config, lines, done, sample, budget).lines
    decreases |sample|
  {
    if sample != [] {
      var id := sample[0];
      if id in done {
        ScoreAllAppends(score, config, lines, done, sample[1..], budget);
      } else if budget >= 2 {
        ScoreAllAppends(score, config, lines + [Scored(RowFor(score, config, id))], done, sample[1..], budget - 2);
      }
    }
  }

  /** Resuming never drops a line. The checkpoint goes away only when the run finishes and
      every question it held rows for is in the sample, and then it does. */
  lemma RemovedIffBanked(score: Scorer, config: Config, disk: Disk, sample: seq<string>, budget: nat)
    requires disk.checkpoint.Some?
    ensures var r := RunSpec(score, config, disk, sample, false, budget);
            && (r.disk.checkpoint.None? <==> r.status.Finished? && AllIn(Held(disk.checkpoint.value), sample))
            && (r.disk.checkpoint.Some? ==> disk.checkpoint.value <= r.disk.checkpoint.value)
  {
    var lines := disk.checkpoint.value;
    ScoreAllAppends(score, config, lines, Held(lines), sample, budget);
  }

  // ---------------------------------------------------------------- cost

  /** How many places of the sample, which may repeat a question, have no row. */
  function Todo(done: map<string, Row>, sample: seq<string>): nat {
    if sample == [] then 0 else (if sample[0] in done then 0 else 1) + Todo(done, sample[1..])
  }

  lemma {:induction false} TodoFalls(before: map<string, Row>, after: map<string, Row>, sample: seq<string>)
    requires before.Keys <= after.Keys
    ensures Todo(after, sample) <= Todo(before, sample)
  {
    if sample != [] {
      TodoFalls(before, after, sample[1..]);
    }
  }

  lemma {:induction false} DoneGrows(lines: seq<Line>, more: seq<Line>)
    ensures DoneOf(lines).Keys <= DoneOf(lines + more).Keys
  {
    if more == [] {
      assert lines + more == lines;
    } else {
      DoneGrows(lines, more[..|more| - 1]);
      assert (lines + more)[..|lines + more| - 1] == lines + more[..|more| - 1];
    }
  }

  lemma HeldGrows(lines: seq<Line>, later: seq<Line>)
    requires lines != [] && lines <= later
    ensures Held(lines).Keys <= Held(later).Keys
  {
    var more := later[|lines|..];
    assert later == lines + more;
    assert later[1..] == lines[1..] + more;
    DoneGrows(lines, more);
    DoneGrows(lines[1..], more);
  }

  lemma HeldAfterAppend(lines: seq<Line>, row: Row)
    requires lines != []
    ensures row.id in Held(lines + [Scored(row)])
  {
    var all := lines + [Scored(row)];
    assert all[1..][..|all[1..]| - 1] == lines[1..];
    assert all[..|all| - 1] == lines;
  }

  lemma {:induction false} ScoringCost(score: Scorer, config: Config, lines: seq<Line>, done: map<string, Row>,
                                       sample: seq<string>, budget: nat)
    requires lines != [] && done.Keys <= Held(lines).Keys
    ensures var s := ScoreAll(score, config, lines, done, sample, budget);
            && s.lines != []
            && s.scored + Todo(Held(s.lines), sample) <= Todo(done, sample) + if s.budget.None? then 1 else 0
    decreases |sample|
  {
    var s := ScoreAll(score, config, lines, done, sample, budget);
    ScoreAllAppends(score, config, lines, done, sample, budget);
    HeldGrows(lines, s.lines);
    if sample != [] {
      var id := sample[0];
      if id in done {
        ScoringCost(score, config, lines, done, sample[1..], budget);
      } else if budget >= 2 {
        var row := RowFor(score, config, id);
        var next := lines + [Scored(row)];
        HeldAfterAppend(lines, row);
        HeldGrows(lines, next);
        ScoreAllAppends(score, config, next, done, sample[1..], budget - 2);
        HeldGrows(next, s.lines);
        ScoringCost(score, config, next, done, sample[1..], budget - 2);
      } else {
        TodoFalls(done, Held(lines), sample);
      }
    }
  }

  /** Restarting after every crash until the run ends. */
  datatype Retried = Retried(disk: Disk, scored: nat, crashes: nat, status: Status)

  function Retry(score: Scorer, config: Config, sample: seq<string>, budgets: seq<nat>): Retried {
    if budgets == [] then Retried(Disk(None, None), 0, 0, Crashed)
    else
      var before := Retry(score, config, sample, budgets[..|budgets| - 1]);
      if !before.status.Crashed? then before
      else
        var r := RunSpec(score, config, before.disk, sample, false, budgets[|budgets| - 1]);
        Retried(r.disk, before.scored + r.scored, before.crashes + if r.status.Crashed? then 1 else 0, r.status)
  }

  /** Nothing held without a checkpoint. */
  function HeldOn(disk: Disk): map<string, Row> {
    match disk.checkpoint
    case None => map[]
    case Some(lines) => Held(lines)
  }

  ghost predicate UnderConfig(disk: Disk, config: Config) {
    disk.checkpoint.Some? ==> disk.checkpoint.value != [] && disk.checkpoint.value[0] == Header(config)
  }

  lemma RunCost(score: Scorer, config: Config, disk: Disk, sample: seq<string>, budget: nat)
    requires UnderConfig(disk, config)
    ensures var r := RunSpec(score, config, disk, sample, false, budget);
            && !r.status.Refused?
            && (r.status.Crashed? ==> UnderConfig(r.disk, config))
            && r.scored + (if r.status.Crashed? then Todo(HeldOn(r.disk), sample) else 0)
               <= Todo(HeldOn(disk), sample) + if r.status.Crashed? then 1 else 0
  {
    match disk.checkpoint
    case None =>
      if budget > 0 {
        ContinueCost(score, config, disk, [Header(config)], map[], sample, budget - 1);
      }
    case Some(lines) =>
      ContinueCost(score, config, disk, lines, Held(lines), sample, budget);
  }

  lemma ContinueCost(score: Scorer, config: Config, disk: Disk, lines: seq<Line>, done: map<string, Row>,
                     sample: seq<string>, budget: nat)
    requires lines != [] && lines[0] == Header(config) && done.Keys <= Held(lines).Keys
    ensures var r := Continue(score, config, disk, lines, done, sample, budget);
            && !r.status.Refused?
            && (r.status.Crashed? ==> r.disk.checkpoint.Some? && UnderConfig(r.disk, config))
            && r.scored + (if r.status.Crashed? then Todo(HeldOn(r.disk), sample) else 0)
               <= Todo(done, sample) + if r.status.Crashed? then 1 else 0
  {
    ScoringCost(score, config, lines, done, sample, budget);
    ScoreAllAppends(score, config, lines, done, sample, budget);
  }

  lemma {:induction false} RetryCost(score: Scorer, config: Config, sample: seq<string>, budgets: seq<nat>)
    ensures var r := Retry(score, config, sample, budgets);
            && (r.status.Crashed? ==> UnderConfig(r.disk, config))
            && r.scored + (if r.status.Crashed? then Todo(HeldOn(r.disk), sample) else 0)
               <= Todo(map[], sample) + r.crashes
  {
    if budgets != [] {
      var m := |budgets| - 1;
      RetryCost(score, config, sample, budgets[..m]);
      var before := Retry(score, config, sample, budgets[..m]);
      if before.status.Crashed? {
        RunCost(score, config, before.disk, sample, budgets[m]);
      }
    }
  }

  lemma {:induction false} TodoOfNothing(sample: seq<string>)
    ensures Todo(map[], sample) == |sample|
  {
    if sample != [] {
      TodoOfNothing(sample[1..]);
    }
  }

  lemma {:induction false} RetryHonest(score: Scorer, config: Config, sample: seq<string>, budgets: seq<nat>)
    ensures var r := Retry(score, config, sample, budgets);
            HonestDisk(score, r.disk) && (r.status.Finished? ==> r.status.rows == RowsFor(score, config, sample))
  {
    if budgets != [] {
      var m := |budgets| - 1;
      RetryHonest(score, config, sample, budgets[..m]);
      var disk := Retry(score, config, sample, budgets[..m]).disk;
      HonestIsSound(score, disk);
      RunHonest(score, config, disk, sample, false, budgets[m]);
    }
  }

  /** Crash-resume equivalence: restarting after every crash ends with the sample scored
      once in order, and costs at most one extra scoring per crash. */
  lemma CrashResumeEquivalence(score: Scorer, config: Config, sample: seq<string>, budgets: seq<nat>)
    ensures var r := Retry(score, config, sample, budgets);
            && r.scored <= |sample| + r.crashes
            && (r.status.Finished? ==> r.status.rows == RowsFor(score, config, sample))
  {
    RetryCost(score, config, sample, budgets);
    TodoOfNothing(sample);
    RetryHonest(score, config, sample, budgets);
  }

  lemma {:induction false} EnoughForLoop(score: Scorer, config: Config, lines: seq<Line>, done: map<string, Row>,
                                         sample: seq<string>, budget: nat)
    requires budget >= 2 * |sample| + 2
    ensures var s := ScoreAll(score, config, lines, done, sample, budget);
            s.budget.Some? && s.budget.value >= 2
    decreases |sample|
  {
    if sample != [] {
      if sample[0] in done {
        EnoughForLoop(score, config, lines, done, sample[1..], budget);
      } else {
        EnoughForLoop(score, config, lines + [Scored(RowFor(score, config, sample[0]))], done, sample[1..], budget - 2);
      }
    }
  }

  /** A run that survives two effects per question and four more does finish. */
  lemma LongEnoughRunFinishes(score: Scorer, config: Config, disk: Disk, sample: seq<string>, budget: nat)
    requires UnderConfig(disk, config) && sample != [] && budget >= 2 * |sample| + 4
    ensures RunSpec(score, config, disk, sample, false, budget).status.Finished?
  {
    match disk.checkpoint
    case None => EnoughForLoop(score, config, [Header(config)], map[], sample, budget - 1);
    case Some(lines) => EnoughForLoop(score, config, lines, Held(lines), sample, budget);
  }
}
