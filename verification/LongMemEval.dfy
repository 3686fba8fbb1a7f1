/** `bench/longmemeval.py`: a benchmark run that checkpoints every scored question and
    resumes after a crash. */
module LongMemEval {
  import opened Results
  import opened Sequences

  /** The fingerprint on the first checkpoint line. */
  datatype Config = Config(data: string, judgeModel: string, noHydra: bool, types: Option<string>, topK: int)

  datatype Row = Row(id: string, verdict: string)

  datatype Line = Header(config: Config) | Scored(row: Row)

  /** The scores of one process, read off its fingerprint; `Fingerprint` asks when that is all they depend on. */
  type Scorer = (Config, string) -> string

  type Checkpoint = Option<seq<Line>>

  /** The files a run touches. */
  datatype Disk = Disk(checkpoint: Checkpoint, results: Option<seq<Row>>)

  function RowFor(score: Scorer, config: Config, id: string): Row {
    Row(id, score(config, id))
  }

  function RowsFor(score: Scorer, config: Config, sample: seq<string>): seq<Row> {
    if sample == [] then [] else [RowFor(score, config, sample[0])] + RowsFor(score, config, sample[1..])
  }

  /** Rows by question; a later line wins. */
  function DoneOf(lines: seq<Line>): map<string, Row> {
    if lines == [] then map[]
    else
      var front, last := DoneOf(lines[..|lines| - 1]), lines[|lines| - 1];
      if last.Scored? then front[last.row.id := last.row] else front
  }

  datatype Loaded = Refusal | Resume(done: map<string, Row>)

  /** Reading the checkpoint back: a header of another configuration refuses the run, a
      missing header is not noticed. */
  function Load(lines: seq<Line>, config: Config): Loaded {
    if lines != [] && lines[0].Header? then
      if lines[0].config != config then Refusal else Resume(DoneOf(lines[1..]))
    else Resume(DoneOf(lines))
  }

  // ---------------------------------------------------------------- one run

  /** `budget` counts the effects on the world the process survives: deleting a file,
      writing the header, scoring a question, appending its line, writing the results. */
  datatype Scoring = Scoring(lines: seq<Line>, rows: seq<Row>, scored: nat, budget: Option<nat>)

  function ScoreAll(score: Scorer, config: Config, lines: seq<Line>, done: map<string, Row>, sample: seq<string>,
                    budget: nat): Scoring
    decreases |sample|
  {
    if sample == [] then Scoring(lines, [], 0, Some(budget))
    else
      var id := sample[0];
      if id in done then
        var rest := ScoreAll(score, config, lines, done, sample[1..], budget);
        rest.(rows := [done[id]] + rest.rows)
      else if budget == 0 then Scoring(lines, [], 0, None)
      else if budget == 1 then Scoring(lines, [], 1, None)
      else
        var row := RowFor(score, config, id);
        var rest := ScoreAll(score, config, lines + [Scored(row)], done, sample[1..], budget - 2);
        rest.(rows := [row] + rest.rows, scored := 1 + rest.scored)
  }

  datatype Status = Crashed | Refused | EmptySample | Finished(rows: seq<Row>)

  datatype RunResult = RunResult(disk: Disk, scored: nat, status: Status)

  predicate AllIn(done: map<string, Row>, sample: seq<string>) {
    forall id | id in done :: id in sample
  }

  /** After the loop: no averages over nothing, then results, then the clean-up. */
  function Conclude(disk: Disk, s: Scoring, done: map<string, Row>, sample: seq<string>): RunResult
    requires s.budget.Some?
  {
    var after := disk.(checkpoint := Some(s.lines));
    if sample == [] then RunResult(after, s.scored, EmptySample)
    else if s.budget.value == 0 then RunResult(after, s.scored, Crashed)
    else
      var saved := after.(results := Some(s.rows));
      if !AllIn(done, sample) then RunResult(saved, s.scored, Finished(s.rows))
      else if s.budget.value == 1 then RunResult(saved, s.scored, Crashed)
      else RunResult(saved.(checkpoint := None), s.scored, Finished(s.rows))
  }

  function Continue(score: Scorer, config: Config, disk: Disk, lines: seq<Line>, done: map<string, Row>,
                    sample: seq<string>, budget: nat): RunResult
  {
    var s := ScoreAll(score, config, lines, done, sample, budget);
    if s.budget.None? then RunResult(disk.(checkpoint := Some(s.lines)), s.scored, Crashed)
    else Conclude(disk, s, done, sample)
  }

  /** Starting without a checkpoint writes its header first. */
  function Begin(score: Scorer, config: Config, disk: Disk, sample: seq<string>, budget: nat): RunResult {
    if budget == 0 then RunResult(disk, 0, Crashed)
    else Continue(score, config, disk, [Header(config)], map[], sample, budget - 1)
  }

  function RunSpec(score: Scorer, config: Config, disk: Disk, sample: seq<string>, anew: bool, budget: nat): RunResult {
    match disk.checkpoint
    case None => Begin(score, config, disk, sample, budget)
    case Some(lines) =>
      if anew then
        if budget == 0 then RunResult(disk, 0, Crashed)
        else Begin(score, config, disk.(checkpoint := None), sample, budget - 1)
      else
        match Load(lines, config)
        case Refusal => RunResult(disk, 0, Refused)
        case Resume(done) => Continue(score, config, disk, lines, done, sample, budget)
  }

  ghost predicate Keyed(done: map<string, Row>) {
    forall id | id in done :: done[id].id == id
  }

  lemma {:induction false} DoneIsKeyed(lines: seq<Line>)
    ensures Keyed(DoneOf(lines))
  {
    if lines != [] {
      DoneIsKeyed(lines[..|lines| - 1]);
    }
  }

  function IdOf(r: Row): string {
    r.id
  }

  lemma {:induction false} RowsFollowSample(score: Scorer, config: Config, lines: seq<Line>, done: map<string, Row>,
                                            sample: seq<string>, budget: nat)
    requires Keyed(done)
    ensures var s := ScoreAll(score, config, lines, done, sample, budget);
            s.budget.Some? ==> Map(IdOf, s.rows) == sample
    decreases |sample|
  {
    var s := ScoreAll(score, config, lines, done, sample, budget);
    if sample != [] && s.budget.Some? {
      var id := sample[0];
      if id in done {
        RowsFollowSample(score, config, lines, done, sample[1..], budget);
      } else {
        RowsFollowSample(score, config, lines + [Scored(RowFor(score, config, id))], done, sample[1..], budget - 2);
      }
      assert Map(IdOf, s.rows) == [id] + Map(IdOf, s.rows[1..]);
    }
  }

  /** The ids in the results are the ids of the sample. */
  lemma BankedIsSample(rows: seq<Row>, done: map<string, Row>, sample: seq<string>)
    requires Map(IdOf, rows) == sample
    ensures (forall id | id in done :: id in set r | r in rows :: r.id) <==> AllIn(done, sample)
  {
    forall id ensures id in (set r | r in rows :: r.id) <==> id in sample {
      if id in sample {
        var i :| 0 <= i < |sample| && sample[i] == id;
        assert rows[i].id == id;
      }
    }
  }

  /** `all` is what the rest of the loop makes of the rows and scorings so far. */
  ghost predicate Continues(all: Scoring, rows: seq<Row>, scored: nat, rest: Scoring) {
    && all.lines == rest.lines && all.scored == scored + rest.scored
    && all.budget == rest.budget && (all.budget.Some? ==> all.rows == rows + rest.rows)
  }

  /** The turn of one question. */
  lemma QuestionStep(score: Scorer, config: Config, lines: seq<Line>, done: map<string, Row>, sample: seq<string>,
                     i: nat, left: nat, all: Scoring, rows: seq<Row>, scored: nat)
    requires i < |sample|
    requires Continues(all, rows, scored, ScoreAll(score, config, lines, done, sample[i..], left))
    ensures var id, row := sample[i], RowFor(score, config, sample[i]);
            if id in done then
              Continues(all, rows + [done[id]], scored, ScoreAll(score, config, lines, done, sample[i + 1..], left))
            else if left < 2 then all.lines == lines && all.scored == scored + left && all.budget == None
            else
              Continues(all, rows + [row], scored + 1,
                        ScoreAll(score, config, lines + [Scored(row)], done, sample[i + 1..], left - 2))
  {
    assert sample[i..][1..] == sample[i + 1..];
  }

  class Bench {
    const score: Scorer
    var disk: Disk

    constructor (score: Scorer)
      ensures this.score == score && disk == Disk(None, None)
    {
      this.score := score;
      disk := Disk(None, None);
    }

    method LoadDone(lines: seq<Line>) returns (done: map<string, Row>)
      ensures done == DoneOf(lines)
    {
      done := map[];
      for i := 0 to |lines|
        invariant done == DoneOf(lines[..i])
      {
        assert lines[..i + 1][..i] == lines[..i];
        if lines[i].Scored? {
          done := done[lines[i].row.id := lines[i].row];
        }
      }
      assert lines[..|lines|] == lines;
    }

    /** The resume loop; `alive` tells whether the process got through it. */
    method ScoreSample(config: Config, done: map<string, Row>, sample: seq<string>, budget: nat)
        returns (rows: seq<Row>, scored: nat, alive: bool, left: nat)
      requires disk.checkpoint.Some?
      modifies this`disk
      ensures var s := ScoreAll(score, config, old(disk).checkpoint.value, done, sample, budget);
              && disk == old(disk).(checkpoint := Some(s.lines)) && scored == s.scored
              && s.budget == (if alive then Some(left) else None)
              && (alive ==> rows == s.rows)
    {
      rows, scored, left := [], 0, budget;
      var lines := disk.checkpoint.value;
      ghost var all := ScoreAll(score, config, lines, done, sample, budget);
      var i := 0;
      while i < |sample|
        invariant 0 <= i <= |sample|
        invariant Continues(all, rows, scored, ScoreAll(score, config, lines, done, sample[i..], left))
        invariant disk == old(disk).(checkpoint := Some(lines))
      {
        var id := sample[i];
        QuestionStep(score, config, lines, done, sample, i, left, all, rows, scored);
        i := i + 1;
        if id in done {
          rows := rows + [done[id]];
          continue;
        }
        if left < 2 {
          // One effect left pays for scoring the question, not for its line.
          return rows, scored + left, false, 0;
        }
        var row := RowFor(score, config, id);
        rows, scored, left := rows + [row], scored + 1, left - 2;
        lines := lines + [Scored(row)];
        disk := disk.(checkpoint := Some(lines));
      }
      alive := true;
    }

    /** `main`, with the crash point as `budget`. */
    method Execute(config: Config, sample: seq<string>, anew: bool, budget: nat) returns (scored: nat, status: Status)
      modifies this`disk
      ensures RunResult(disk, scored, status) == RunSpec(score, config, old(disk), sample, anew, budget)
    {
      var left := budget;
      var done: map<string, Row> := map[];
      if disk.checkpoint.Some? {
        if anew {
          if left == 0 {
            return 0, Crashed;
          }
          disk := disk.(checkpoint := None);
          left := left - 1;
        } else {
          var lines := disk.checkpoint.value;
          if lines != [] && lines[0].Header? {
            if lines[0].config != config {
              return 0, Refused;
            }
            lines := lines[1..];
          }
          done := LoadDone(lines);
          DoneIsKeyed(lines);
        }
      }
      if disk.checkpoint.None? {
        if left == 0 {
          return 0, Crashed;
        }
        disk := disk.(checkpoint := Some([Header(config)]));
        left := left - 1;
      }
      status, scored := Resumed(config, done, sample, left);
    }

    /** The loop, the results file, and the clean-up. */
    method Resumed(config: Config, done: map<string, Row>, sample: seq<string>, budget: nat)
        returns (status: Status, scored: nat)
      requires disk.checkpoint.Some? && Keyed(done)
      modifies this`disk
      ensures RunResult(disk, scored, status)
              == Continue(score, config, old(disk), old(disk).checkpoint.value, done, sample, budget)
    {
      RowsFollowSample(score, config, disk.checkpoint.value, done, sample, budget);
      var rows, n, alive, rest := ScoreSample(config, done, sample, budget);
      scored := n;
      if !alive {
        return Crashed, n;
      }
      assert |rows| == |sample|;
      if |rows| == 0 {
        return EmptySample, n;
      }
      if rest == 0 {
        return Crashed, n;
      }
      disk := disk.(results := Some(rows));
      var banked := set r | r in rows :: r.id;
      BankedIsSample(rows, done, sample);
      if forall id | id in done :: id in banked {
        if rest == 1 {
          return Crashed, n;
        }
        disk := disk.(checkpoint := None);
      }
      return Finished(rows), n;
    }
  }
}
