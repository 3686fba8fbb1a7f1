/** What one invocation of the benchmark does, told in its flags and the lines it leaves behind. */
module RunLaws {
  import opened Results
  import opened LongMemEval
  import opened CrashResume

  /** For each question listed twice or more the last line counts. */
  lemma {:induction false} LaterLineWins(lines: seq<Line>, i: nat)
    requires i < |lines| && lines[i].Scored?
    requires forall j | i < j < |lines| && lines[j].Scored? :: lines[j].row.id != lines[i].row.id
    ensures lines[i].row.id in DoneOf(lines) && DoneOf(lines)[lines[i].row.id] == lines[i].row
  {
    var m := |lines| - 1;
    if i < m {
      LaterLineWins(lines[..m], i);
    }
  }

  lemma {:induction false} OnlyScoredAreHeld(lines: seq<Line>, id: string)
    ensures id in DoneOf(lines) <==> exists i | 0 <= i < |lines| :: lines[i].Scored? && lines[i].row.id == id
  {
    if lines != [] {
      var m := |lines| - 1;
      OnlyScoredAreHeld(lines[..m], id);
      if exists i | 0 <= i < m :: lines[..m][i].Scored? && lines[..m][i].row.id == id {
        var i :| 0 <= i < m && lines[..m][i].Scored? && lines[..m][i].row.id == id;
        assert lines[i].Scored?;
      }
      if exists i | 0 <= i < |lines| :: lines[i].Scored? && lines[i].row.id == id {
        var i :| 0 <= i < |lines| && lines[i].Scored? && lines[i].row.id == id;
        assert i < m ==> lines[..m][i].Scored?;
      }
    }
  }

  /** A run is refused exactly without `--fresh` on a checkpoint headed by another configuration, and then it
      scores nothing and touches nothing. */
  lemma RefusedIff(score: Scorer, config: Config, disk: Disk, sample: seq<string>, anew: bool, budget: nat)
    ensures var r := RunSpec(score, config, disk, sample, anew, budget);
            && (r.status == Refused <==>
                  && !anew && disk.checkpoint.Some? && disk.checkpoint.value != []
                  && disk.checkpoint.value[0].Header? && disk.checkpoint.value[0].config != config)
            && (r.status == Refused ==> r.scored == 0 && r.disk == disk)
  {
  }

  lemma {:induction false} ScoresMissing(score: Scorer, config: Config, lines: seq<Line>, done: map<string, Row>,
                                         sample: seq<string>, budget: nat)
    ensures var s := ScoreAll(score, config, lines, done, sample, budget);
            s.scored <= Todo(done, sample) && (s.budget.Some? ==> s.scored == Todo(done, sample))
    decreases |sample|
  {
    if sample != [] {
      var id := sample[0];
      if id in done {
        ScoresMissing(score, config, lines, done, sample[1..], budget);
      } else if budget >= 2 {
        ScoresMissing(score, config, lines + [Scored(RowFor(score, config, id))], done, sample[1..], budget - 2);
      }
    }
  }

  lemma ContinueScores(score: Scorer, config: Config, disk: Disk, lines: seq<Line>, done: map<string, Row>,
                       sample: seq<string>, budget: nat)
    ensures var r := Continue(score, config, disk, lines, done, sample, budget);
            r.status.Finished? ==> r.scored == Todo(done, sample)
  {
    ScoresMissing(score, config, lines, done, sample, budget);
  }

  lemma BeginScores(score: Scorer, config: Config, disk: Disk, sample: seq<string>, budget: nat)
    ensures var r := Begin(score, config, disk, sample, budget); r.status.Finished? ==> r.scored == |sample|
  {
    TodoOfNothing(sample);
    if budget > 0 {
      ContinueScores(score, config, disk, [Header(config)], map[], sample, budget - 1);
    }
  }

  /** A run that finishes has scored exactly the places of its sample it held no row for: all of them with
      `--fresh` or without a checkpoint. */
  lemma FinishedScoredMissing(score: Scorer, config: Config, disk: Disk, sample: seq<string>, anew: bool, budget: nat)
    ensures var r := RunSpec(score, config, disk, sample, anew, budget);
            r.status.Finished? ==>
              r.scored == if anew || disk.checkpoint.None? then |sample| else Todo(Held(disk.checkpoint.value), sample)
  {
    if disk.checkpoint.None? {
      BeginScores(score, config, disk, sample, budget);
    } else if !anew {
      ContinueScores(score, config, disk, disk.checkpoint.value, Held(disk.checkpoint.value), sample, budget);
    } else if budget > 0 {
      BeginScores(score, config, disk.(checkpoint := None), sample, budget - 1);
    }
  }

  // ---------------------------------------------------------------- starting over

  /** The header of `config`, and below it rows of the sample from its start on, scored under `config`. */
  ghost predicate StartsWithOwn(score: Scorer, config: Config, sample: seq<string>, lines: seq<Line>) {
    && 1 <= |lines| <= |sample| + 1 && lines[0] == Header(config)
    && forall i | 1 <= i < |lines| :: lines[i] == Scored(RowFor(score, config, sample[i - 1]))
  }

  lemma {:induction false} ScoresFromStart(score: Scorer, config: Config, lines: seq<Line>, sample: seq<string>, budget: nat)
    ensures var s := ScoreAll(score, config, lines, map[], sample, budget);
            && |lines| <= |s.lines| <= |lines| + |sample| && lines <= s.lines
            && forall i | |lines| <= i < |s.lines| :: s.lines[i] == Scored(RowFor(score, config, sample[i - |lines|]))
    decreases |sample|
  {
    if sample != [] && budget >= 2 {
      var next := lines + [Scored(RowFor(score, config, sample[0]))];
      ScoresFromStart(score, config, next, sample[1..], budget - 2);
    }
  }

  lemma BeginsWithOwn(score: Scorer, config: Config, disk: Disk, sample: seq<string>, budget: nat)
    requires budget > 0
    ensures var left := Begin(score, config, disk, sample, budget).disk.checkpoint;
            left.Some? ==> StartsWithOwn(score, config, sample, left.value)
  {
    ScoresFromStart(score, config, [Header(config)], sample, budget - 1);
  }

  /** With `--fresh` a run is never refused, and if it finishes it has scored its whole sample. The checkpoint it
      leaves is none or starts with its own header and holds only rows it scored itself, unless the process died
      before its first effect, and then nothing has changed. */
  lemma FreshStartsOver(score: Scorer, config: Config, disk: Disk, sample: seq<string>, budget: nat)
    ensures var r := RunSpec(score, config, disk, sample, true, budget);
            && r.status != Refused
            && (r.status.Finished? ==> r.scored == |sample| && r.status.rows == RowsFor(score, config, sample))
            && if budget == 0 then r == RunResult(disk, 0, Crashed)
               else r.disk.checkpoint.Some? ==> StartsWithOwn(score, config, sample, r.disk.checkpoint.value)
  {
    FinishedScoredMissing(score, config, disk, sample, true, budget);
    if budget > 0 {
      assert [Header(config)][1..] == [];
      ContinueHonest(score, config, disk, [Header(config)], map[], sample, budget - 1);
      BeginsWithOwn(score, config, disk, sample, budget);
      if budget > 1 {
        ContinueHonest(score, config, disk.(checkpoint := None), [Header(config)], map[], sample, budget - 2);
        BeginsWithOwn(score, config, disk.(checkpoint := None), sample, budget - 1);
      }
    }
  }

  /** An empty sample never finishes and leaves the results alone. */
  lemma EmptySampleWritesNothing(score: Scorer, config: Config, disk: Disk, anew: bool, budget: nat)
    ensures var r := RunSpec(score, config, disk, [], anew, budget);
            !r.status.Finished? && r.disk.results == disk.results && r.scored == 0
  {
  }
}
