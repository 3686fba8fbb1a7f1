/** Whole histories of `gbrain apply-migrations` invocations over one ledger. */
module MigrationHistory {
  import opened Results
  import opened Sequences
  import opened Migrations

  /** Attempts a version has left before it is settled or wedged. */
  function Remaining(h: seq<Entry>): nat {
    if EverComplete(h) || Trailing(h) >= 3 then 0 else 3 - Trailing(h)
  }

  function Left(ledger: Ledger, v: string): nat {
    Remaining(OfVersion(ledger, v))
  }

  function RetriesIn(h: seq<Entry>): nat {
    if h == [] then 0 else RetriesIn(h[..|h| - 1]) + if h[|h| - 1].status == Retry then 1 else 0
  }

  function Retries(ledger: Ledger, v: string): nat {
    RetriesIn(OfVersion(ledger, v))
  }

  /** How often the orchestrator of `v` ran. */
  function Runs(attempts: seq<Attempt>, v: string): nat {
    if attempts == [] then 0 else Runs(attempts[..|attempts| - 1], v) + if attempts[|attempts| - 1].version == v then 1 else 0
  }

  lemma {:induction false} RunsConcat(a: seq<Attempt>, b: seq<Attempt>, v: string)
    ensures Runs(a + b, v) == Runs(a, v) + Runs(b, v)
  {
    if b == [] {
      assert a + b == a;
    } else {
      assert (a + b)[..|a + b| - 1] == a + b[..|b| - 1];
      RunsConcat(a, b[..|b| - 1], v);
    }
  }

  lemma StatusMeansRemaining(h: seq<Entry>)
    ensures StatusOf(h) == Applied || StatusOf(h) == Wedged <==> Remaining(h) == 0
    ensures StatusOf(h) == Applied <==> EverComplete(h)
  {
    TrailingThree(h);
  }

  lemma EverCompleteStep(h: seq<Entry>, e: Entry)
    ensures EverComplete(h + [e]) <==> EverComplete(h) || e.status == Complete
  {
    assert e in h + [e];
    assert forall x | x in h :: x in h + [e];
  }

  lemma StepRemaining(h: seq<Entry>, e: Entry)
    ensures e.status == Partial ==> Remaining(h + [e]) == if Remaining(h) == 0 then 0 else Remaining(h) - 1
    ensures e.status == Complete ==> Remaining(h + [e]) == 0
    ensures e.status == Retry ==> Remaining(h + [e]) == if EverComplete(h) then 0 else 3
    ensures RetriesIn(h + [e]) == RetriesIn(h) + if e.status == Retry then 1 else 0
  {
    EverCompleteStep(h, e);
    assert (h + [e])[..|h|] == h;
  }

  // ---------------------------------------------------------------- one entry

  /** What an entry for `w` does to the account of `v`. */
  lemma AppendAccount(ledger: Ledger, e: Entry, v: string)
    ensures var after := Append(ledger, e);
            && (e.version != v ==> OfVersion(after, v) == OfVersion(ledger, v))
            && (e.version == v && e.status == Partial ==>
                  Left(after, v) == (if Left(ledger, v) == 0 then 0 else Left(ledger, v) - 1)
                  && Retries(after, v) == Retries(ledger, v))
            && (e.version == v && e.status == Complete ==> Left(after, v) == 0 && Retries(after, v) == Retries(ledger, v))
            && (e.version == v && e.status == Retry ==>
                  Left(after, v) <= 3 && Retries(after, v) == Retries(ledger, v) + 1)
  {
    var prior := OfVersion(ledger, e.version);
    OfVersionStep(ledger, e, v);
    StepRemaining(OfVersion(ledger, v), e);
    if e.status == Complete && prior != [] && prior[|prior| - 1].status == Complete {
      assert prior[|prior| - 1] in prior;
    }
  }

  // ---------------------------------------------------------------- one invocation

  /** The books balance: runs and what is left never exceed what was left plus three per
      retry marker written. */
  ghost predicate Balanced(before: Ledger, e: Effect, v: string) {
    && Retries(before, v) <= Retries(e.ledger, v)
    && Runs(e.attempts, v) + Left(e.ledger, v) <= Left(before, v) + 3 * (Retries(e.ledger, v) - Retries(before, v))
  }

  lemma RecordedRun(ledger: Ledger, w: string, o: Outcome, v: string)
    requires Left(ledger, w) > 0
    ensures Balanced(ledger, Effect(Append(ledger, Recorded(w, o)), [Attempt(w, ledger)], 0), v)
    ensures Retries(Append(ledger, Recorded(w, o)), v) == Retries(ledger, v)
  {
    AppendAccount(ledger, Recorded(w, o), v);
    assert [Attempt(w, ledger)][..0] == [];
  }

  ghost predicate AllLeft(ledger: Ledger, toRun: seq<string>) {
    forall v | v in toRun :: Left(ledger, v) > 0
  }

  lemma AllLeftNext(ledger: Ledger, toRun: seq<string>, o: Outcome)
    requires toRun != [] && Distinct(toRun) && AllLeft(ledger, toRun)
    ensures AllLeft(Append(ledger, Recorded(toRun[0], o)), toRun[1..]) && Distinct(toRun[1..])
  {
    forall v | v in toRun[1..] ensures Left(Append(ledger, Recorded(toRun[0], o)), v) > 0 {
      AppendAccount(ledger, Recorded(toRun[0], o), v);
      assert v in toRun;
    }
  }

  ghost predicate OnlyUnsettled(attempts: seq<Attempt>) {
    forall a | a in attempts :: Left(a.before, a.version) > 0
  }

  lemma {:induction false} RunAllBalanced(ledger: Ledger, toRun: seq<string>, outcome: string -> Outcome, v: string)
    requires Distinct(toRun) && AllLeft(ledger, toRun)
    ensures Balanced(ledger, RunAll(ledger, toRun, outcome), v)
    ensures Retries(RunAll(ledger, toRun, outcome).ledger, v) == Retries(ledger, v)
    decreases |toRun|
  {
    if toRun != [] {
      var w := toRun[0];
      var after := Append(ledger, Recorded(w, outcome(w)));
      RecordedRun(ledger, w, outcome(w), v);
      if !Aborts(outcome(w)) {
        AllLeftNext(ledger, toRun, outcome(w));
        RunAllBalanced(after, toRun[1..], outcome, v);
        RunsConcat([Attempt(w, ledger)], RunAll(after, toRun[1..], outcome).attempts, v);
      }
    }
  }

  lemma {:induction false} RunAllUnsettled(ledger: Ledger, toRun: seq<string>, outcome: string -> Outcome)
    requires Distinct(toRun) && AllLeft(ledger, toRun)
    ensures OnlyUnsettled(RunAll(ledger, toRun, outcome).attempts)
    decreases |toRun|
  {
    if toRun != [] {
      var w := toRun[0];
      assert w in toRun;
      if !Aborts(outcome(w)) {
        AllLeftNext(ledger, toRun, outcome(w));
        RunAllUnsettled(Append(ledger, Recorded(w, outcome(w))), toRun[1..], outcome);
      }
    }
  }

  lemma {:induction false} MembersAre(env: Env, versions: seq<string>, ledger: Ledger, filter: Option<string>, b: Bucket)
    ensures forall v :: v in Members(env, versions, ledger, filter, b) <==>
                        v in versions && BucketOf(env, ledger, filter, v) == b
    ensures Distinct(versions) ==> Distinct(Members(env, versions, ledger, filter, b))
  {
    if versions != [] {
      var m := |versions| - 1;
      MembersAre(env, versions[..m], ledger, filter, b);
      assert versions == versions[..m] + [versions[m]];
    }
  }

  /** What is about to run is distinct and unsettled, and nothing eligible is left out. */
  lemma ToRunShape(env: Env, ledger: Ledger, filter: Option<string>)
    requires env.Valid()
    ensures Distinct(ToRun(env, ledger, filter)) && AllLeft(ledger, ToRun(env, ledger, filter))
    ensures forall v :: v in ToRun(env, ledger, filter) <==>
              v in env.registry && !env.Newer(v) && (filter.Some? ==> v == filter.value) && Left(ledger, v) > 0
  {
    var a := Members(env, env.registry, ledger, filter, BPartial);
    var b := Members(env, env.registry, ledger, filter, BPending);
    MembersAre(env, env.registry, ledger, filter, BPartial);
    MembersAre(env, env.registry, ledger, filter, BPending);
    forall v {
      StatusMeansRemaining(OfVersion(ledger, v));
    }
    forall i, j | 0 <= i < |a| && 0 <= j < |b| ensures a[i] != b[j] {
      assert a[i] in a && b[j] in b;
    }
  }

  lemma {:induction false} ResetBalanced(versions: seq<string>, ledger: Ledger, v: string)
    ensures Balanced(ledger, Effect(ResetWedged(versions, ledger), [], 0), v)
  {
    if versions != [] {
      var m := |versions| - 1;
      ResetBalanced(versions[..m], ledger, v);
      AppendAccount(ResetWedged(versions[..m], ledger), Entry(versions[m], Retry), v);
    }
  }

  lemma ExecBalanced(env: Env, ledger: Ledger, cmd: Command, v: string)
    requires env.Valid()
    ensures Balanced(ledger, Exec(env, ledger, cmd), v)
  {
    match cmd
    case ForceRetry(w) =>
      AppendAccount(ledger, Entry(w, Retry), v);
    case ForceOrchestrator =>
      ResetBalanced(env.registry, ledger, v);
    case Apply(filter, mode, outcome) =>
      ToRunShape(env, ledger, filter);
      RunAllBalanced(ledger, ToRun(env, ledger, filter), outcome, v);
  }

  // ---------------------------------------------------------------- histories

  function History(env: Env, ledger: Ledger, cmds: seq<Command>): Effect {
    if cmds == [] then Effect(ledger, [], 0)
    else
      var before := History(env, ledger, cmds[..|cmds| - 1]);
      var last := Exec(env, before.ledger, cmds[|cmds| - 1]);
      last.(attempts := before.attempts + last.attempts)
  }

  lemma {:induction false} HistoryBalanced(env: Env, ledger: Ledger, cmds: seq<Command>, v: string)
    requires env.Valid()
    ensures Balanced(ledger, History(env, ledger, cmds), v)
  {
    if cmds != [] {
      var m := |cmds| - 1;
      HistoryBalanced(env, ledger, cmds[..m], v);
      var before := History(env, ledger, cmds[..m]);
      ExecBalanced(env, before.ledger, cmds[m], v);
      RunsConcat(before.attempts, Exec(env, before.ledger, cmds[m]).attempts, v);
    }
  }

  /** Over any history the orchestrator of a version runs at most three times, plus three
      times for each retry marker the history wrote for it. */
  lemma RunsBounded(env: Env, ledger: Ledger, cmds: seq<Command>, v: string)
    requires env.Valid()
    ensures var e := History(env, ledger, cmds);
            && Retries(ledger, v) <= Retries(e.ledger, v)
            && Runs(e.attempts, v) <= 3 * (1 + Retries(e.ledger, v) - Retries(ledger, v))
  {
    HistoryBalanced(env, ledger, cmds, v);
  }

  /** No orchestrator ever runs for a version whose ledger already holds a complete entry,
      nor for a wedged one. */
  lemma {:induction false} NeverAfterComplete(env: Env, ledger: Ledger, cmds: seq<Command>)
    requires env.Valid()
    ensures forall a | a in History(env, ledger, cmds).attempts ::
              && !EverComplete(OfVersion(a.before, a.version))
              && StatusOf(OfVersion(a.before, a.version)) != Wedged
  {
    if cmds != [] {
      var m := |cmds| - 1;
      NeverAfterComplete(env, ledger, cmds[..m]);
      var before := History(env, ledger, cmds[..m]).ledger;
      match cmds[m]
      case ForceRetry(_) =>
      case ForceOrchestrator =>
      case Apply(filter, mode, outcome) =>
        ToRunShape(env, before, filter);
        RunAllUnsettled(before, ToRun(env, before, filter), outcome);
        forall a | a in Exec(env, before, cmds[m]).attempts
          ensures !EverComplete(OfVersion(a.before, a.version)) && StatusOf(OfVersion(a.before, a.version)) != Wedged
        {
          StatusMeansRemaining(OfVersion(a.before, a.version));
        }
    }
  }

  /** A recorded ledger only ever grows. */
  lemma {:induction false} LedgerGrows(env: Env, ledger: Ledger, cmds: seq<Command>)
    ensures ledger <= History(env, ledger, cmds).ledger
  {
    if cmds != [] {
      var m := |cmds| - 1;
      LedgerGrows(env, ledger, cmds[..m]);
      var before := History(env, ledger, cmds[..m]).ledger;
      match cmds[m]
      case ForceRetry(_) =>
      case ForceOrchestrator => ResetGrows(env.registry, before);
      case Apply(filter, mode, outcome) => RunAllGrows(before, ToRun(env, before, filter), outcome);
    }
  }

  lemma {:induction false} ResetGrows(versions: seq<string>, ledger: Ledger)
    ensures ledger <= ResetWedged(versions, ledger)
  {
    if versions != [] {
      ResetGrows(versions[..|versions| - 1], ledger);
    }
  }

  lemma {:induction false} RunAllGrows(ledger: Ledger, toRun: seq<string>, outcome: string -> Outcome)
    ensures ledger <= RunAll(ledger, toRun, outcome).ledger
    decreases |toRun|
  {
    if toRun != [] && !Aborts(outcome(toRun[0])) {
      RunAllGrows(Append(ledger, Recorded(toRun[0], outcome(toRun[0]))), toRun[1..], outcome);
    }
  }

  // ---------------------------------------------------------------- quiescence

  /** Attempts left over all versions the installed binary may run. */
  function Budget(env: Env, versions: seq<string>, ledger: Ledger): nat {
    if versions == [] then 0
    else
      var last := versions[|versions| - 1];
      Budget(env, versions[..|versions| - 1], ledger) + if env.Newer(last) then 0 else Left(ledger, last)
  }

  function Eligible(env: Env, versions: seq<string>): nat {
    if versions == [] then 0
    else Eligible(env, versions[..|versions| - 1]) + if env.Newer(versions[|versions| - 1]) then 0 else 1
  }

  lemma {:induction false} BudgetAtMostThreeEach(env: Env, versions: seq<string>, ledger: Ledger)
    ensures Budget(env, versions, ledger) <= 3 * Eligible(env, versions)
  {
    if versions != [] {
      BudgetAtMostThreeEach(env, versions[..|versions| - 1], ledger);
    }
  }

  lemma {:induction false} BudgetFalls(env: Env, versions: seq<string>, before: Ledger, after: Ledger)
    requires forall v | v in versions :: Left(after, v) <= Left(before, v)
    ensures Budget(env, versions, after) <= Budget(env, versions, before)
    ensures (exists v | v in versions :: !env.Newer(v) && Left(after, v) < Left(before, v)) ==>
              Budget(env, versions, after) < Budget(env, versions, before)
  {
    if versions != [] {
      var m := |versions| - 1;
      assert versions == versions[..m] + [versions[m]];
      BudgetFalls(env, versions[..m], before, after);
    }
  }

  lemma {:induction false} BudgetZero(env: Env, versions: seq<string>, ledger: Ledger)
    ensures Budget(env, versions, ledger) == 0 <==> forall v | v in versions && !env.Newer(v) :: Left(ledger, v) == 0
  {
    if versions != [] {
      var m := |versions| - 1;
      assert versions == versions[..m] + [versions[m]];
      BudgetZero(env, versions[..m], ledger);
    }
  }

  /** The invocation runs at least one orchestrator. */
  predicate Works(env: Env, ledger: Ledger, cmd: Command) {
    Exec(env, ledger, cmd).attempts != []
  }

  lemma RunAllSpends(ledger: Ledger, toRun: seq<string>, outcome: string -> Outcome)
    requires toRun != [] && Distinct(toRun) && AllLeft(ledger, toRun)
    ensures var e := RunAll(ledger, toRun, outcome);
            && (forall v :: Left(e.ledger, v) <= Left(ledger, v))
            && Left(e.ledger, toRun[0]) < Left(ledger, toRun[0])
  {
    var e := RunAll(ledger, toRun, outcome);
    forall v ensures Left(e.ledger, v) <= Left(ledger, v) {
      RunAllBalanced(ledger, toRun, outcome, v);
    }
    RunAllBalanced(ledger, toRun, outcome, toRun[0]);
    FirstRuns(e.attempts, toRun[0]);
  }

  lemma FirstRuns(attempts: seq<Attempt>, v: string)
    requires attempts != [] && attempts[0].version == v
    ensures Runs(attempts, v) >= 1
  {
    assert attempts == [attempts[0]] + attempts[1..];
    RunsConcat([attempts[0]], attempts[1..], v);
    assert [attempts[0]][..0] == [];
    assert Runs([attempts[0]], v) == 1;
  }

  /** A plain run spends budget exactly when it works; otherwise the ledger is untouched. */
  lemma ApplySpends(env: Env, ledger: Ledger, cmd: Command)
    requires env.Valid() && cmd.Apply?
    ensures var after := Exec(env, ledger, cmd).ledger;
            if Works(env, ledger, cmd) then Budget(env, env.registry, after) < Budget(env, env.registry, ledger)
            else after == ledger
  {
    var toRun := ToRun(env, ledger, cmd.filter);
    if Works(env, ledger, cmd) {
      ToRunShape(env, ledger, cmd.filter);
      RunAllSpends(ledger, toRun, cmd.outcome);
      assert toRun[0] in toRun;
      BudgetFalls(env, env.registry, ledger, RunAll(ledger, toRun, cmd.outcome).ledger);
    }
  }

  function WorkCount(env: Env, ledger: Ledger, cmds: seq<Command>): nat {
    if cmds == [] then 0
    else
      var m := |cmds| - 1;
      WorkCount(env, ledger, cmds[..m]) + if Works(env, History(env, ledger, cmds[..m]).ledger, cmds[m]) then 1 else 0
  }

  ghost predicate NoMarkers(cmds: seq<Command>) {
    forall i | 0 <= i < |cmds| :: cmds[i].Apply?
  }

  lemma {:induction false} WorkPaidFromBudget(env: Env, ledger: Ledger, cmds: seq<Command>)
    requires env.Valid() && NoMarkers(cmds)
    ensures WorkCount(env, ledger, cmds) + Budget(env, env.registry, History(env, ledger, cmds).ledger)
            <= Budget(env, env.registry, ledger)
  {
    if cmds != [] {
      var m := |cmds| - 1;
      WorkPaidFromBudget(env, ledger, cmds[..m]);
      ApplySpends(env, History(env, ledger, cmds[..m]).ledger, cmds[m]);
    }
  }

  /** Without retry markers at most three invocations per eligible version ever have work
      to do, whatever the orchestrators answer. */
  lemma WorkBounded(env: Env, ledger: Ledger, cmds: seq<Command>)
    requires env.Valid() && NoMarkers(cmds)
    ensures WorkCount(env, ledger, cmds) <= 3 * Eligible(env, env.registry)
  {
    WorkPaidFromBudget(env, ledger, cmds);
    BudgetAtMostThreeEach(env, env.registry, ledger);
  }

  /** Every version the binary may run is complete or wedged. */
  ghost predicate Quiescent(env: Env, ledger: Ledger) {
    forall v | v in env.registry && !env.Newer(v) ::
      StatusOf(OfVersion(ledger, v)) == Applied || StatusOf(OfVersion(ledger, v)) == Wedged
  }

  predicate FullRun(cmd: Command) {
    cmd.Apply? && cmd.filter.None? && cmd.mode == Run
  }

  lemma QuiescentMeansSpent(env: Env, ledger: Ledger)
    ensures Quiescent(env, ledger) <==> Budget(env, env.registry, ledger) == 0
  {
    BudgetZero(env, env.registry, ledger);
    forall v {
      StatusMeansRemaining(OfVersion(ledger, v));
    }
  }

  /** An unfiltered run without work means everything is settled. */
  lemma IdleMeansQuiescent(env: Env, ledger: Ledger, cmd: Command)
    requires env.Valid() && FullRun(cmd)
    ensures Works(env, ledger, cmd) <==> !Quiescent(env, ledger)
  {
    var toRun := ToRun(env, ledger, None);
    ToRunShape(env, ledger, None);
    QuiescentMeansSpent(env, ledger);
    BudgetZero(env, env.registry, ledger);
    if toRun != [] {
      assert toRun[0] in toRun;
    }
  }

  lemma {:induction false} BudgetAfter(env: Env, ledger: Ledger, cmds: seq<Command>)
    requires env.Valid() && forall i | 0 <= i < |cmds| :: FullRun(cmds[i])
    ensures Budget(env, env.registry, History(env, ledger, cmds).ledger) == 0
            || Budget(env, env.registry, History(env, ledger, cmds).ledger) + |cmds| <= Budget(env, env.registry, ledger)
  {
    if cmds != [] {
      var m := |cmds| - 1;
      BudgetAfter(env, ledger, cmds[..m]);
      var before := History(env, ledger, cmds[..m]).ledger;
      ApplySpends(env, before, cmds[m]);
      IdleMeansQuiescent(env, before, cmds[m]);
      QuiescentMeansSpent(env, before);
    }
  }

  /** The runner quiesces: after three full runs per eligible version, with any outcomes
      and failures, every such version is complete or wedged. */
  lemma RunnerQuiesces(env: Env, ledger: Ledger, cmds: seq<Command>)
    requires env.Valid() && forall i | 0 <= i < |cmds| :: FullRun(cmds[i])
    requires |cmds| >= 3 * Eligible(env, env.registry)
    ensures Quiescent(env, History(env, ledger, cmds).ledger)
  {
    BudgetAfter(env, ledger, cmds);
    BudgetAtMostThreeEach(env, env.registry, ledger);
    QuiescentMeansSpent(env, History(env, ledger, cmds).ledger);
  }

  lemma {:induction false} RunAllTouchesRun(ledger: Ledger, toRun: seq<string>, outcome: string -> Outcome, v: string)
    requires Runs(RunAll(ledger, toRun, outcome).attempts, v) == 0
    ensures OfVersion(RunAll(ledger, toRun, outcome).ledger, v) == OfVersion(ledger, v)
    decreases |toRun|
  {
    if toRun != [] {
      var w := toRun[0];
      var e := RunAll(ledger, toRun, outcome);
      if w == v {
        FirstRuns(e.attempts, v);
      }
      AppendAccount(ledger, Recorded(w, outcome(w)), v);
      if !Aborts(outcome(w)) {
        var rest := RunAll(Append(ledger, Recorded(w, outcome(w))), toRun[1..], outcome);
        RunsConcat([Attempt(w, ledger)], rest.attempts, v);
        RunAllTouchesRun(Append(ledger, Recorded(w, outcome(w))), toRun[1..], outcome, v);
      }
    }
  }

  lemma {:induction false} UntouchedUnlessRun(env: Env, ledger: Ledger, cmds: seq<Command>, v: string)
    requires NoMarkers(cmds) && Runs(History(env, ledger, cmds).attempts, v) == 0
    ensures OfVersion(History(env, ledger, cmds).ledger, v) == OfVersion(ledger, v)
  {
    if cmds != [] {
      var m := |cmds| - 1;
      var before := History(env, ledger, cmds[..m]);
      RunsConcat(before.attempts, Exec(env, before.ledger, cmds[m]).attempts, v);
      UntouchedUnlessRun(env, ledger, cmds[..m], v);
      var cmd := cmds[m];
      RunAllTouchesRunOrIdle(env, before.ledger, cmd, v);
    }
  }

  lemma RunAllTouchesRunOrIdle(env: Env, ledger: Ledger, cmd: Command, v: string)
    requires cmd.Apply? && Runs(Exec(env, ledger, cmd).attempts, v) == 0
    ensures OfVersion(Exec(env, ledger, cmd).ledger, v) == OfVersion(ledger, v)
  {
    if Exec(env, ledger, cmd) == RunAll(ledger, ToRun(env, ledger, cmd.filter), cmd.outcome) {
      RunAllTouchesRun(ledger, ToRun(env, ledger, cmd.filter), cmd.outcome, v);
    }
  }

  /** A failing early migration cannot block a later one for ever: by the time the runner
      has quiesced, every version that had attempts left was run. */
  lemma NobodyBlocked(env: Env, ledger: Ledger, cmds: seq<Command>, v: string)
    requires env.Valid() && forall i | 0 <= i < |cmds| :: FullRun(cmds[i])
    requires |cmds| >= 3 * Eligible(env, env.registry)
    requires v in env.registry && !env.Newer(v) && Left(ledger, v) > 0
    ensures Runs(History(env, ledger, cmds).attempts, v) >= 1
  {
    RunnerQuiesces(env, ledger, cmds);
    if Runs(History(env, ledger, cmds).attempts, v) == 0 {
      UntouchedUnlessRun(env, ledger, cmds, v);
      StatusMeansRemaining(OfVersion(ledger, v));
      assert false;
    }
  }

  // ---------------------------------------------------------------- where code and text differ

  /** `--migration v` reports "no migration registered" exactly for an unregistered version
      and for a registered one that is wedged. */
  lemma FilterRefusal(env: Env, ledger: Ledger, v: string, mode: Mode, outcome: string -> Outcome)
    ensures Exec(env, ledger, Apply(Some(v), mode, outcome)).exit == 2 <==>
            v !in env.registry || (!env.Newer(v) && StatusOf(OfVersion(ledger, v)) == Wedged)
  {
    var plan := PlanSpec(env, env.registry, ledger, Some(v));
    MembersAre(env, env.registry, ledger, Some(v), BApplied);
    MembersAre(env, env.registry, ledger, Some(v), BPartial);
    MembersAre(env, env.registry, ledger, Some(v), BPending);
    MembersAre(env, env.registry, ledger, Some(v), BFuture);
    if !NothingRegistered(plan) {
      SomeMember(plan);
    }
    RunAllExit(ledger, ToRun(env, ledger, Some(v)), outcome);
  }

  function Fails(version: string): Outcome {
    Failed
  }

  /** `n` partial entries of one version. */
  function Partials(v: string, n: nat): Ledger {
    if n == 0 then [] else Partials(v, n - 1) + [Entry(v, Partial)]
  }

  lemma {:induction false} PartialsShape(v: string, n: nat)
    ensures |Partials(v, n)| == n && OfVersion(Partials(v, n), v) == Partials(v, n)
    ensures forall i | 0 <= i < n :: Partials(v, n)[i] == Entry(v, Partial)
  {
    if n > 0 {
      PartialsShape(v, n - 1);
    }
  }

  lemma {:induction false} PartialsIncomplete(v: string, n: nat)
    ensures !EverComplete(Partials(v, n))
  {
    if n > 0 {
      PartialsIncomplete(v, n - 1);
      EverCompleteStep(Partials(v, n - 1), Entry(v, Partial));
    }
  }

  lemma PartialsStatus(v: string, n: nat)
    ensures StatusOf(Partials(v, n)) == if n == 0 then Pending else if n < 3 then Resumable else Wedged
  {
    PartialsShape(v, n);
    PartialsIncomplete(v, n);
    var h := Partials(v, n);
    if n > 0 {
      assert h[n - 1].status == Partial;
    }
  }

  lemma OnlyVersion(env: Env, ledger: Ledger, b: Bucket)
    requires |env.registry| == 1
    ensures Members(env, env.registry, ledger, None, b)
            == if BucketOf(env, ledger, None, env.registry[0]) == b then env.registry else []
  {
    assert env.registry[..0] == [] && env.registry == [env.registry[0]];
  }

  lemma UnsettledIsRun(env: Env, v: string, n: nat)
    requires env.registry == [v] && !env.Newer(v) && n < 3
    ensures ToRun(env, Partials(v, n), None) == [v]
  {
    PartialsShape(v, n);
    PartialsStatus(v, n);
    OnlyVersion(env, Partials(v, n), BPartial);
    OnlyVersion(env, Partials(v, n), BPending);
    assert BucketOf(env, Partials(v, n), None, v) == if n == 0 then BPending else BPartial;
  }

  lemma FailingRun(env: Env, v: string, n: nat, cmd: Command)
    requires env.registry == [v] && !env.Newer(v) && n < 3 && cmd == Apply(None, Run, Fails)
    ensures Exec(env, Partials(v, n), cmd).ledger == Partials(v, n + 1)
  {
    UnsettledIsRun(env, v, n);
    assert RunAll(Partials(v, n), [v], Fails).ledger == Partials(v, n) + [Entry(v, Partial)];
  }

  lemma {:induction false} FailingRuns(env: Env, v: string, cmds: seq<Command>)
    requires env.registry == [v] && !env.Newer(v)
    requires |cmds| <= 3 && forall i | 0 <= i < |cmds| :: cmds[i] == Apply(None, Run, Fails)
    ensures History(env, [], cmds).ledger == Partials(v, |cmds|)
  {
    if cmds != [] {
      var m := |cmds| - 1;
      FailingRuns(env, v, cmds[..m]);
      FailingRun(env, v, m, cmds[m]);
    }
  }

  /** Such a version comes about: after three failing runs of the one registered version `--migration` calls
      it not registered. */
  lemma WedgedCalledUnregistered(env: Env, v: string, cmds: seq<Command>, mode: Mode, outcome: string -> Outcome)
    requires env.registry == [v] && !env.Newer(v)
    requires |cmds| == 3 && forall i | 0 <= i < |cmds| :: cmds[i] == Apply(None, Run, Fails)
    ensures Exec(env, History(env, [], cmds).ledger, Apply(Some(v), mode, outcome)).exit == 2
  {
    FailingRuns(env, v, cmds);
    PartialsShape(v, 3);
    PartialsStatus(v, 3);
    FilterRefusal(env, Partials(v, 3), v, mode, outcome);
  }

  lemma {:induction false} RunAllExit(ledger: Ledger, toRun: seq<string>, outcome: string -> Outcome)
    ensures RunAll(ledger, toRun, outcome).exit <= 1
    decreases |toRun|
  {
    if toRun != [] && !Aborts(outcome(toRun[0])) {
      RunAllExit(Append(ledger, Recorded(toRun[0], outcome(toRun[0]))), toRun[1..], outcome);
    }
  }

  lemma SomeMember(plan: Plan)
    requires !NothingRegistered(plan)
    ensures exists w :: w in plan.applied || w in plan.partial || w in plan.pending || w in plan.skippedFuture
  {
    if plan.applied != [] { assert plan.applied[0] in plan.applied; }
    else if plan.partial != [] { assert plan.partial[0] in plan.partial; }
    else if plan.pending != [] { assert plan.pending[0] in plan.pending; }
    else { assert plan.skippedFuture[0] in plan.skippedFuture; }
  }

  // ---------------------------------------------------------------- the order of runs

  /** `v` is registered before `w`. */
  ghost predicate Earlier(registry: seq<string>, v: string, w: string) {
    forall p, q | 0 <= p < |registry| && 0 <= q < |registry| && registry[p] == v && registry[q] == w :: p < q
  }

  ghost predicate InOrder(versions: seq<string>, registry: seq<string>) {
    forall i, j | 0 <= i < j < |versions| :: Earlier(registry, versions[i], versions[j])
  }

  function VersionOf(a: Attempt): string {
    a.version
  }

  function Ran(attempts: seq<Attempt>): seq<string> {
    Map(VersionOf, attempts)
  }

  function Finishes(version: string): Outcome {
    Finished
  }

  ghost predicate Inverts(env: Env, ledger: Ledger, filter: Option<string>, early: string, late: string) {
    BucketOf(env, ledger, filter, early) == BPending && BucketOf(env, ledger, filter, late) == BPartial
  }

  ghost predicate PendingBeforePartial(env: Env, ledger: Ledger, filter: Option<string>) {
    exists i, j | 0 <= i < j < |env.registry| :: Inverts(env, ledger, filter, env.registry[i], env.registry[j])
  }

  lemma RanCons(a: Attempt, rest: seq<Attempt>)
    ensures Ran([a] + rest) == [a.version] + Ran(rest)
  {
  }

  lemma PrefixCons(v: string, front: seq<string>, all: seq<string>)
    requires front <= all
    ensures [v] + front <= [v] + all
  {
  }

  /** The attempts of a run are a beginning of what was to run, and all of it when all goes well. */
  lemma {:induction false} RunsPlanned(ledger: Ledger, toRun: seq<string>, outcome: string -> Outcome)
    ensures Ran(RunAll(ledger, toRun, outcome).attempts) <= toRun
    ensures (forall v | v in toRun :: outcome(v) == Finished) ==> Ran(RunAll(ledger, toRun, outcome).attempts) == toRun
    decreases |toRun|
  {
    if toRun != [] {
      var v := toRun[0];
      var after := Append(ledger, Recorded(v, outcome(v)));
      RunsPlanned(after, toRun[1..], outcome);
      var rest := RunAll(after, toRun[1..], outcome).attempts;
      RanCons(Attempt(v, ledger), rest);
      RanCons(Attempt(v, ledger), []);
      PrefixCons(v, Ran(rest), toRun[1..]);
      assert toRun == [v] + toRun[1..];
    }
  }

  lemma {:induction false} MembersInOrder(env: Env, versions: seq<string>, ledger: Ledger, filter: Option<string>, b: Bucket)
    requires Distinct(versions)
    ensures InOrder(Members(env, versions, ledger, filter, b), versions)
  {
    if versions != [] {
      var m := |versions| - 1;
      var front := versions[..m];
      var earlier := Members(env, front, ledger, filter, b);
      MembersInOrder(env, front, ledger, filter, b);
      MembersAre(env, front, ledger, filter, b);
      forall i, j | 0 <= i < j < |earlier| ensures Earlier(versions, earlier[i], earlier[j]) {
        StillEarlier(versions, earlier[i], earlier[j]);
      }
      forall i | 0 <= i < |earlier| ensures Earlier(versions, earlier[i], versions[m]) {
        assert earlier[i] in front;
      }
    }
  }

  lemma StillEarlier(versions: seq<string>, v: string, w: string)
    requires versions != [] && Distinct(versions)
    requires v in versions[..|versions| - 1] && w in versions[..|versions| - 1]
    requires Earlier(versions[..|versions| - 1], v, w)
    ensures Earlier(versions, v, w)
  {
    var front := versions[..|versions| - 1];
    forall p, q | 0 <= p < |versions| && 0 <= q < |versions| && versions[p] == v && versions[q] == w ensures p < q {
      assert p < |front| && q < |front| && front[p] == v && front[q] == w;
    }
  }

  /** What is to run is in registry order iff no pending version is registered before a partial one. */
  lemma PlanOrderIff(env: Env, ledger: Ledger, filter: Option<string>)
    requires env.Valid()
    ensures InOrder(ToRun(env, ledger, filter), env.registry) <==> !PendingBeforePartial(env, ledger, filter)
  {
    var registry := env.registry;
    var a, b := Members(env, registry, ledger, filter, BPartial), Members(env, registry, ledger, filter, BPending);
    MembersInOrder(env, registry, ledger, filter, BPartial);
    MembersInOrder(env, registry, ledger, filter, BPending);
    MembersAre(env, registry, ledger, filter, BPartial);
    MembersAre(env, registry, ledger, filter, BPending);
    if PendingBeforePartial(env, ledger, filter) {
      var p, q :| 0 <= p < q < |registry| && Inverts(env, ledger, filter, registry[p], registry[q]);
      PartialFirst(a, b, registry, p, q);
    } else {
      forall i, j | 0 <= i < |a| && 0 <= j < |b| ensures Earlier(registry, a[i], b[j]) {
        assert a[i] in a && b[j] in b;
        forall q, p | 0 <= q < |registry| && 0 <= p < |registry| && registry[q] == a[i] && registry[p] == b[j] ensures q < p {
          assert p < q ==> !Inverts(env, ledger, filter, registry[p], registry[q]);
        }
      }
    }
  }

  lemma PartialFirst(a: seq<string>, b: seq<string>, registry: seq<string>, p: nat, q: nat)
    requires p < q < |registry| && registry[p] in b && registry[q] in a
    ensures !InOrder(a + b, registry)
  {
    var i :| 0 <= i < |a| && a[i] == registry[q];
    var j :| 0 <= j < |b| && b[j] == registry[p];
    assert (a + b)[i] == registry[q] && (a + b)[|a| + j] == registry[p];
    assert !Earlier(registry, registry[q], registry[p]);
  }

  lemma RanPlanned(env: Env, ledger: Ledger, filter: Option<string>, outcome: string -> Outcome)
    ensures Ran(Exec(env, ledger, Apply(filter, Run, outcome)).attempts) <= ToRun(env, ledger, filter)
  {
    RunsPlanned(ledger, ToRun(env, ledger, filter), outcome);
  }

  lemma RanAll(env: Env, ledger: Ledger, filter: Option<string>)
    requires PendingBeforePartial(env, ledger, filter)
    ensures Ran(Exec(env, ledger, Apply(filter, Run, Finishes)).attempts) == ToRun(env, ledger, filter)
  {
    var i, j :| 0 <= i < j < |env.registry| && Inverts(env, ledger, filter, env.registry[i], env.registry[j]);
    MembersAre(env, env.registry, ledger, filter, BPending);
    assert env.registry[i] in Members(env, env.registry, ledger, filter, BPending);
    RunsPlanned(ledger, ToRun(env, ledger, filter), Finishes);
  }

  /** Whatever the orchestrators answer, runs follow registry order, exactly when no pending version is
      registered before a partial one. */
  lemma RegistryOrderIff(env: Env, ledger: Ledger, filter: Option<string>)
    requires env.Valid()
    ensures (forall outcome: string -> Outcome ::
               InOrder(Ran(Exec(env, ledger, Apply(filter, Run, outcome)).attempts), env.registry))
            <==> !PendingBeforePartial(env, ledger, filter)
  {
    PlanOrderIff(env, ledger, filter);
    if PendingBeforePartial(env, ledger, filter) {
      RanAll(env, ledger, filter);
    } else {
      forall outcome: string -> Outcome
        ensures InOrder(Ran(Exec(env, ledger, Apply(filter, Run, outcome)).attempts), env.registry)
      {
        RanPlanned(env, ledger, filter, outcome);
      }
    }
  }

  function NeverNewer(a: string, b: string): int {
    0
  }

  function HalfDoes(version: string): Outcome {
    HalfDone
  }

  const TWO: Env := Env(["a", "b"], "1", NeverNewer)

  const HALF_WAY: Ledger := [Entry("b", Partial)]

  lemma HalfWayHistories()
    ensures OfVersion(HALF_WAY, "a") == [] && OfVersion(HALF_WAY, "b") == HALF_WAY
  {
    assert HALF_WAY[..0] == [];
  }

  lemma FilteredRunHalfWay(cmd: Command)
    requires cmd == Apply(Some("b"), Run, HalfDoes)
    ensures Exec(TWO, [], cmd).ledger == HALF_WAY
  {
    TwoVersions(TWO, [], Some("b"));
    assert BucketOf(TWO, [], Some("b"), "a") == BFiltered && BucketOf(TWO, [], Some("b"), "b") == BPending;
    assert ToRun(TWO, [], Some("b")) == ["b"];
    assert RunAll([], ["b"], HalfDoes).ledger == HALF_WAY by { assert ["b"][1..] == []; }
  }

  lemma HalfWayToRun()
    ensures ToRun(TWO, HALF_WAY, None) == ["b", "a"]
  {
    HalfWayHistories();
    TwoVersions(TWO, HALF_WAY, None);
    assert BucketOf(TWO, HALF_WAY, None, "a") == BPending && BucketOf(TWO, HALF_WAY, None, "b") == BPartial;
  }

  lemma FullRunTakesBFirst(cmd: Command)
    requires cmd == Apply(None, Run, Finishes)
    ensures Ran(Exec(TWO, HALF_WAY, cmd).attempts) == ["b", "a"]
  {
    HalfWayToRun();
    RunsPlanned(HALF_WAY, ToRun(TWO, HALF_WAY, None), Finishes);
  }

  /** Such ledgers do come about: after `--migration b` got half way, a full run takes `b` before `a`. */
  lemma OutOfOrderRun()
    ensures var ledger := History(TWO, [], [Apply(Some("b"), Run, HalfDoes)]).ledger;
            var ran := Ran(Exec(TWO, ledger, Apply(None, Run, Finishes)).attempts);
            TWO.Valid() && ran == ["b", "a"] && !InOrder(ran, TWO.registry)
  {
    var filtered := Apply(Some("b"), Run, HalfDoes);
    FilteredRunHalfWay(filtered);
    FullRunTakesBFirst(Apply(None, Run, Finishes));
    assert [filtered][..0] == [];
    assert History(TWO, [], [filtered][..0]).ledger == [];
    assert TWO.registry[0] == "a" && TWO.registry[1] == "b";
    assert !Earlier(TWO.registry, "b", "a");
    assert ["b", "a"][0] == "b" && ["b", "a"][1] == "a";
  }

  lemma TwoVersions(env: Env, ledger: Ledger, filter: Option<string>)
    requires env.registry == ["a", "b"]
    ensures forall b :: Members(env, env.registry, ledger, filter, b)
                        == (if BucketOf(env, ledger, filter, "a") == b then ["a"] else [])
                           + (if BucketOf(env, ledger, filter, "b") == b then ["b"] else [])
  {
    assert ["a", "b"][..1] == ["a"] && ["a"][..0] == [];
    forall b ensures Members(env, ["a"], ledger, filter, b) == if BucketOf(env, ledger, filter, "a") == b then ["a"] else [] {
      assert ["a"][0] == "a";
    }
  }
}
