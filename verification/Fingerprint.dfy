/** What the checkpoint's configuration fingerprint does and does not tell apart.

    A run's scores depend on all its settings; the header holds only a print of them. */
module Fingerprint {
  import opened Results
  import opened LongMemEval
  import opened CrashResume

  datatype Launch<S> = Launch(settings: S, sample: seq<string>, anew: bool, budget: nat)

  /** The scorer of a process started with these settings. */
  function ScorerOf<S>(score: (S, string) -> string, settings: S): Scorer {
    (config: Config, id: string) => score(settings, id)
  }

  function RunOf<S>(prints: S -> Config, score: (S, string) -> string, disk: Disk, l: Launch<S>): RunResult {
    RunSpec(ScorerOf(score, l.settings), prints(l.settings), disk, l.sample, l.anew, l.budget)
  }

  function DiskOf<S>(prints: S -> Config, score: (S, string) -> string, runs: seq<Launch<S>>): Disk {
    if runs == [] then Disk(None, None)
    else RunOf(prints, score, DiskOf(prints, score, runs[..|runs| - 1]), runs[|runs| - 1]).disk
  }

  /** After `runs` from no checkpoint the run `last` reports its own sample, scored under its own settings. */
  ghost predicate ReportsOwn<S>(prints: S -> Config, score: (S, string) -> string, runs: seq<Launch<S>>, last: Launch<S>) {
    Reports(ScorerOf(score, last.settings), prints(last.settings), last.sample,
            RunOf(prints, score, DiskOf(prints, score, runs), last))
  }

  /** Settings with the same print score every question alike. */
  ghost predicate PrintsTell<S(!new)>(prints: S -> Config, score: (S, string) -> string) {
    forall s, t, id | prints(s) == prints(t) :: score(s, id) == score(t, id)
  }

  // ---------------------------------------------------------------- enough

  ghost predicate AgreeAt(a: Scorer, b: Scorer, config: Config) {
    forall id :: a(config, id) == b(config, id)
  }

  lemma {:induction false} ScoreAllAgrees(a: Scorer, b: Scorer, config: Config, lines: seq<Line>, done: map<string, Row>,
                                          sample: seq<string>, budget: nat)
    requires AgreeAt(a, b, config)
    ensures ScoreAll(a, config, lines, done, sample, budget) == ScoreAll(b, config, lines, done, sample, budget)
    decreases |sample|
  {
    if sample != [] {
      var id := sample[0];
      assert RowFor(a, config, id) == RowFor(b, config, id);
      if id in done {
        ScoreAllAgrees(a, b, config, lines, done, sample[1..], budget);
      } else if budget >= 2 {
        ScoreAllAgrees(a, b, config, lines + [Scored(RowFor(a, config, id))], done, sample[1..], budget - 2);
      }
    }
  }

  /** A run asks its scorer about its own configuration only. */
  lemma RunAgrees(a: Scorer, b: Scorer, config: Config, disk: Disk, sample: seq<string>, anew: bool, budget: nat)
    requires AgreeAt(a, b, config)
    ensures RunSpec(a, config, disk, sample, anew, budget) == RunSpec(b, config, disk, sample, anew, budget)
  {
    forall lines, done, left: nat
      ensures ScoreAll(a, config, lines, done, sample, left) == ScoreAll(b, config, lines, done, sample, left)
    {
      ScoreAllAgrees(a, b, config, lines, done, sample, left);
    }
  }

  lemma {:induction false} RowsAgree(a: Scorer, b: Scorer, config: Config, sample: seq<string>)
    requires AgreeAt(a, b, config)
    ensures RowsFor(a, config, sample) == RowsFor(b, config, sample)
  {
    if sample != [] {
      RowsAgree(a, b, config, sample[1..]);
    }
  }

  ghost predicate Printed<S(!new)>(prints: S -> Config, config: Config) {
    exists s :: prints(s) == config
  }

  ghost function SomeSettings<S(!new)>(prints: S -> Config, config: Config): (s: S)
    requires Printed(prints, config)
    ensures prints(s) == config
  {
    var s :| prints(s) == config;
    s
  }

  /** One scorer for all settings, reading the print alone. */
  ghost function FromPrint<S(!new)>(prints: S -> Config, score: (S, string) -> string): Scorer {
    (config: Config, id: string) =>
      if Printed(prints, config) then score(SomeSettings(prints, config), id) else ""
  }

  lemma FromPrintAgrees<S(!new)>(prints: S -> Config, score: (S, string) -> string, settings: S)
    requires PrintsTell(prints, score)
    ensures AgreeAt(ScorerOf(score, settings), FromPrint(prints, score), prints(settings))
  {
    var config := prints(settings);
    assert Printed(prints, config);
    assert prints(SomeSettings(prints, config)) == prints(settings);
  }

  lemma {:induction false} DiskSound<S(!new)>(prints: S -> Config, score: (S, string) -> string, runs: seq<Launch<S>>)
    requires PrintsTell(prints, score)
    ensures SoundDisk(FromPrint(prints, score), DiskOf(prints, score, runs))
  {
    if runs != [] {
      var front, l := runs[..|runs| - 1], runs[|runs| - 1];
      DiskSound(prints, score, front);
      var all, disk := FromPrint(prints, score), DiskOf(prints, score, front);
      FromPrintAgrees(prints, score, l.settings);
      RunAgrees(ScorerOf(score, l.settings), all, prints(l.settings), disk, l.sample, l.anew, l.budget);
      RunHonest(all, prints(l.settings), disk, l.sample, l.anew, l.budget);
    }
  }

  lemma TellingPrintsSuffice<S(!new)>(prints: S -> Config, score: (S, string) -> string, runs: seq<Launch<S>>, last: Launch<S>)
    requires PrintsTell(prints, score)
    ensures ReportsOwn(prints, score, runs, last)
  {
    var all, own, config := FromPrint(prints, score), ScorerOf(score, last.settings), prints(last.settings);
    var disk := DiskOf(prints, score, runs);
    DiskSound(prints, score, runs);
    FromPrintAgrees(prints, score, last.settings);
    RunAgrees(own, all, config, disk, last.sample, last.anew, last.budget);
    RunHonest(all, config, disk, last.sample, last.anew, last.budget);
    RowsAgree(own, all, config, last.sample);
  }

  // ---------------------------------------------------------------- needed

  /** A run that dies right after banking its first row. */
  lemma BankedRow(score: Scorer, config: Config, id: string)
    ensures var row := RowFor(score, config, id);
            var r := RunSpec(score, config, Disk(None, None), [id], false, 3);
            r.status == Crashed && r.disk == Disk(Some([Header(config), Scored(row)]), None)
  {
    var lines, row := [Header(config)], RowFor(score, config, id);
    assert [id][1..] == [] && lines + [Scored(row)] == [Header(config), Scored(row)];
    assert ScoreAll(score, config, lines + [Scored(row)], map[], [id][1..], 0) == Scoring(lines + [Scored(row)], [], 0, Some(0));
    assert ScoreAll(score, config, lines, map[], [id], 2) == Scoring(lines + [Scored(row)], [row], 1, Some(0));
  }

  lemma BankedRowKept(config: Config, row: Row)
    ensures Load([Header(config), Scored(row)], config) == Resume(map[row.id := row])
  {
    assert [Header(config), Scored(row)][1..] == [Scored(row)];
    assert [Scored(row)][..|[Scored(row)]| - 1] == [] && DoneOf([]) == map[];
    assert DoneOf([Scored(row)]) == DoneOf([])[row.id := row];
  }

  /** Two runs whose settings have one print but score a question differently get mixed: the second reports
      the first one's row. */
  lemma SharedPrintMixes<S>(prints: S -> Config, score: (S, string) -> string, s: S, t: S, id: string)
    requires prints(s) == prints(t) && score(s, id) != score(t, id)
    ensures var first, last := Launch(s, [id], false, 3), Launch(t, [id], false, 2);
            var second := RunOf(prints, score, DiskOf(prints, score, [first]), last);
            && RunOf(prints, score, Disk(None, None), first).status == Crashed
            && second.status == Finished([Row(id, score(s, id))])
            && !ReportsOwn(prints, score, [first], last)
  {
    var first, config := Launch(s, [id], false, 3), prints(s);
    var row := Row(id, score(s, id));
    BankedRow(ScorerOf(score, s), config, id);
    BankedRowKept(config, row);
    assert [first][..0] == [] && DiskOf(prints, score, []) == Disk(None, None);
    var disk := DiskOf(prints, score, [first]);
    assert disk == Disk(Some([Header(config), Scored(row)]), None);
    HeldRowReported(ScorerOf(score, t), disk, config, id, map[id := row]);
  }

  /** Exactly what the fingerprint has to hold: every finished run of every history from no checkpoint reports
      its own sample under its own settings iff settings with equal prints score every question alike. */
  lemma FreshIffPrintsTell<S(!new)>(prints: S -> Config, score: (S, string) -> string)
    ensures (forall runs, last :: ReportsOwn(prints, score, runs, last)) <==> PrintsTell(prints, score)
  {
    if PrintsTell(prints, score) {
      forall runs, last ensures ReportsOwn(prints, score, runs, last) {
        TellingPrintsSuffice(prints, score, runs, last);
      }
    } else {
      var s, t, id :| prints(s) == prints(t) && score(s, id) != score(t, id);
      SharedPrintMixes(prints, score, s, t, id);
    }
  }

  // ---------------------------------------------------------------- the program's own print

  /** What a run can be started with that its scores may depend on. */
  datatype Settings = Settings(data: string, judgeModel: string, noHydra: bool, types: Option<string>, topK: int,
                               hydraWait: int)

  /** The last part of a path. */
  function FileName(path: string): string {
    if path == [] || path[|path| - 1] == '/' then [] else FileName(path[..|path| - 1]) + [path[|path| - 1]]
  }

  /** `run_config`. */
  function RunConfig(s: Settings): Config {
    Config(FileName(s.data), s.judgeModel, s.noHydra, s.types, s.topK)
  }

  /** Only the name of the data file matters, and the wait timeout not at all. */
  ghost predicate IgnoresRest(score: (Settings, string) -> string) {
    forall s: Settings, data, hydraWait, id | FileName(s.data) == FileName(data) ::
      score(s, id) == score(s.(data := data, hydraWait := hydraWait), id)
  }

  /** The program's fingerprint is enough iff scores depend neither on the directory of the data file nor on
      the wait timeout. */
  lemma RunConfigEnoughIff(score: (Settings, string) -> string)
    ensures (forall runs, last :: ReportsOwn(RunConfig, score, runs, last)) <==> IgnoresRest(score)
  {
    FreshIffPrintsTell(RunConfig, score);
    if IgnoresRest(score) {
      forall s, t, id | RunConfig(s) == RunConfig(t) ensures score(s, id) == score(t, id) {
        assert s.(data := t.data, hydraWait := t.hydraWait) == t;
      }
    } else {
      var s: Settings, data, hydraWait, id :|
        FileName(s.data) == FileName(data) && score(s, id) != score(s.(data := data, hydraWait := hydraWait), id);
      assert RunConfig(s) == RunConfig(s.(data := data, hydraWait := hydraWait));
    }
  }

  /** Otherwise a run resumes across two data files of one name, or two timeouts, and reports a row of the other. */
  lemma SameFileNameMixes(score: (Settings, string) -> string, s: Settings, data: string, hydraWait: int, id: string)
    requires FileName(s.data) == FileName(data)
    requires score(s, id) != score(s.(data := data, hydraWait := hydraWait), id)
    ensures !ReportsOwn(RunConfig, score, [Launch(s, [id], false, 3)],
                        Launch(s.(data := data, hydraWait := hydraWait), [id], false, 2))
  {
    SharedPrintMixes(RunConfig, score, s, s.(data := data, hydraWait := hydraWait), id);
  }
}
