/** What one invocation of `gbrain apply-migrations` does to the ledger, told in the ledger's own entries. */
module MigrationLaws {
  import opened Results
  import opened Sequences
  import opened Migrations
  import opened MigrationHistory

  ghost predicate EndsInThreePartials(h: seq<Entry>) {
    |h| >= 3 && forall i | |h| - 3 <= i < |h| :: h[i].status == Partial
  }

  /** Exactly what a run has to do: the registered versions not newer than the installed one, the filter
      permitting, that never completed and do not end in three partial entries. */
  lemma WhatRuns(env: Env, ledger: Ledger, filter: Option<string>, v: string)
    requires env.Valid()
    ensures v in ToRun(env, ledger, filter) <==>
            && v in env.registry && env.compare(v, env.installed) <= 0
            && (filter.Some? ==> v == filter.value)
            && (forall e | e in OfVersion(ledger, v) :: e.status != Complete)
            && !EndsInThreePartials(OfVersion(ledger, v))
  {
    var h := OfVersion(ledger, v);
    ToRunShape(env, ledger, filter);
    TrailingThree(h);
    assert EndsInThreePartials(h) <==> Trailing(h) >= 3;
  }

  // ---------------------------------------------------------------- a run

  ghost predicate Broke(o: Outcome) {
    o == Failed || o == Threw
  }

  /** Every attempt leaves one entry, complete iff it finished; only the last one may have failed or thrown, and
      then the exit code says so. */
  ghost predicate RunLeft(ledger: Ledger, toRun: seq<string>, outcome: string -> Outcome, e: Effect) {
    && |e.attempts| <= |toRun| && |e.ledger| == |ledger| + |e.attempts| && ledger <= e.ledger
    && (forall i | 0 <= i < |e.attempts| :: AttemptLeft(ledger, toRun, outcome, e, i))
    && (forall i | 0 <= i < |e.attempts| - 1 :: !Broke(outcome(toRun[i])))
    && (e.exit == 1 <==> |e.attempts| > 0 && Broke(outcome(toRun[|e.attempts| - 1])))
    && (e.exit != 1 ==> e.exit == 0 && |e.attempts| == |toRun|)
  }

  ghost predicate AttemptLeft(ledger: Ledger, toRun: seq<string>, outcome: string -> Outcome, e: Effect, i: nat)
    requires i < |e.attempts| <= |toRun| && |e.ledger| == |ledger| + |e.attempts|
  {
    && e.attempts[i].version == toRun[i]
    && e.attempts[i].before == e.ledger[..|ledger| + i]
    && e.ledger[|ledger| + i] == Entry(toRun[i], if outcome(toRun[i]) == Finished then Complete else Partial)
  }

  lemma AppendGrows(ledger: Ledger, e: Entry)
    requires Left(ledger, e.version) > 0
    ensures Append(ledger, e) == ledger + [e]
  {
    var h := OfVersion(ledger, e.version);
    assert h != [] ==> h[|h| - 1] in h;
  }

  lemma AttemptLeftLater(ledger: Ledger, toRun: seq<string>, outcome: string -> Outcome, first: Entry, rest: Effect, i: nat)
    requires toRun != [] && first == Entry(toRun[0], if outcome(toRun[0]) == Finished then Complete else Partial)
    requires i <= |rest.attempts| < |toRun| && |rest.ledger| == |ledger| + 1 + |rest.attempts|
    requires ledger + [first] <= rest.ledger
    requires i > 0 ==> AttemptLeft(ledger + [first], toRun[1..], outcome, rest, i - 1)
    ensures AttemptLeft(ledger, toRun, outcome, rest.(attempts := [Attempt(toRun[0], ledger)] + rest.attempts), i)
  {
    if i == 0 {
      assert rest.ledger[..|ledger|] == ledger && rest.ledger[|ledger|] == first;
    } else {
      assert toRun[1..][i - 1] == toRun[i];
    }
  }

  lemma {:induction false} RunAllRecords(ledger: Ledger, toRun: seq<string>, outcome: string -> Outcome)
    requires Distinct(toRun) && AllLeft(ledger, toRun)
    ensures RunLeft(ledger, toRun, outcome, RunAll(ledger, toRun, outcome))
    decreases |toRun|
  {
    if toRun != [] {
      var v := toRun[0];
      var first := Entry(v, if outcome(v) == Finished then Complete else Partial);
      AppendGrows(ledger, first);
      if Broke(outcome(v)) {
        assert (ledger + [first])[..|ledger|] == ledger;
      } else {
        AllLeftNext(ledger, toRun, outcome(v));
        RunAllRecords(ledger + [first], toRun[1..], outcome);
        RecordedLater(ledger, toRun, outcome, first, RunAll(ledger + [first], toRun[1..], outcome));
      }
    }
  }

  lemma RecordedLater(ledger: Ledger, toRun: seq<string>, outcome: string -> Outcome, first: Entry, rest: Effect)
    requires toRun != [] && first == Entry(toRun[0], if outcome(toRun[0]) == Finished then Complete else Partial)
    requires !Broke(outcome(toRun[0])) && RunLeft(ledger + [first], toRun[1..], outcome, rest)
    ensures RunLeft(ledger, toRun, outcome, rest.(attempts := [Attempt(toRun[0], ledger)] + rest.attempts))
  {
    var e := rest.(attempts := [Attempt(toRun[0], ledger)] + rest.attempts);
    forall i | 0 <= i < |e.attempts| ensures AttemptLeft(ledger, toRun, outcome, e, i) {
      AttemptLeftLater(ledger, toRun, outcome, first, rest, i);
    }
    forall i | 0 <= i < |e.attempts| - 1 ensures !Broke(outcome(toRun[i])) {
      assert i > 0 ==> toRun[1..][i - 1] == toRun[i];
    }
  }

  /** A run that is not refused: one entry for each attempt, complete iff the orchestrator finished and partial
      when it got half way, failed or threw; a failure or a throw is the last attempt and means exit code 1;
      without one everything there was to run was run and the code is 0. */
  lemma RunRecords(env: Env, ledger: Ledger, filter: Option<string>, outcome: string -> Outcome)
    requires env.Valid()
    ensures var e := Exec(env, ledger, Apply(filter, Run, outcome));
            if e.exit == 2 then e == Effect(ledger, [], 2) else RunLeft(ledger, ToRun(env, ledger, filter), outcome, e)
  {
    ToRunShape(env, ledger, filter);
    RunAllRecords(ledger, ToRun(env, ledger, filter), outcome);
  }

  // ---------------------------------------------------------------- the other commands

  /** Listing and dry runs try nothing and write nothing. */
  lemma LooksChangeNothing(env: Env, ledger: Ledger, filter: Option<string>, mode: Mode, outcome: string -> Outcome)
    requires mode == List || mode == DryRun
    ensures var e := Exec(env, ledger, Apply(filter, mode, outcome));
            e.ledger == ledger && e.attempts == [] && (e.exit == 0 || e.exit == 2)
  {
  }

  lemma RetryMakesPending(h: seq<Entry>, v: string)
    ensures StatusOf(h + [Entry(v, Retry)]) == if EverComplete(h) then Applied else Pending
  {
    EverCompleteStep(h, Entry(v, Retry));
  }

  /** `--force-retry v` adds one retry marker, after which `v` is pending unless it once completed; an
      unregistered version is refused. */
  lemma ForceRetryLaw(env: Env, ledger: Ledger, v: string)
    ensures var e := Exec(env, ledger, ForceRetry(v));
            && e.attempts == [] && (e.exit == 0 <==> v in env.registry) && (e.exit == 2 <==> v !in env.registry)
            && e.ledger == ledger + (if v in env.registry then [Entry(v, Retry)] else [])
            && (v in env.registry ==>
                  StatusOf(OfVersion(e.ledger, v)) == if EverComplete(OfVersion(ledger, v)) then Applied else Pending)
  {
    OfVersionStep(ledger, Entry(v, Retry), v);
    RetryMakesPending(OfVersion(ledger, v), v);
  }

  ghost predicate ResetAs(before: Ledger, after: Ledger, versions: seq<string>, v: string) {
    OfVersion(after, v)
    == OfVersion(before, v)
       + if v in versions && StatusOf(OfVersion(before, v)) == Wedged then [Entry(v, Retry)] else []
  }

  lemma {:induction false} ResetMarksWedged(versions: seq<string>, ledger: Ledger, v: string)
    requires Distinct(versions)
    ensures ResetAs(ledger, ResetWedged(versions, ledger), versions, v)
  {
    if versions != [] {
      var m := |versions| - 1;
      ResetMarksWedged(versions[..m], ledger, v);
      assert versions == versions[..m] + [versions[m]];
      OfVersionStep(ResetWedged(versions[..m], ledger), Entry(versions[m], Retry), v);
    }
  }

  /** `--force-orchestrator` makes every wedged registered version pending with one retry marker, and touches no
      other version. */
  lemma ForceOrchestratorLaw(env: Env, ledger: Ledger, v: string)
    requires env.Valid()
    ensures var e := Exec(env, ledger, ForceOrchestrator);
            && e.attempts == [] && e.exit == 0
            && ResetAs(ledger, e.ledger, env.registry, v)
            && (v in env.registry && StatusOf(OfVersion(ledger, v)) == Wedged ==> StatusOf(OfVersion(e.ledger, v)) == Pending)
  {
    ResetMarksWedged(env.registry, ledger, v);
    RetryMakesPending(OfVersion(ledger, v), v);
  }

  /** Appending a complete entry twice is appending it once; any other entry is always added. */
  lemma CompleteOnce(ledger: Ledger, e: Entry)
    ensures e.status == Complete ==> Append(Append(ledger, e), e) == Append(ledger, e)
    ensures e.status != Complete ==> Append(ledger, e) == ledger + [e]
    ensures OfVersion(Append(ledger, e), e.version) != [] && var h := OfVersion(Append(ledger, e), e.version);
            h[|h| - 1].status == e.status
  {
    OfVersionStep(ledger, e, e.version);
  }

  // ---------------------------------------------------------------- histories

  /** The `i`-th invocation attempted `v` and it finished. */
  ghost predicate FinishedAt(env: Env, ledger: Ledger, cmds: seq<Command>, i: nat, v: string)
    requires i < |cmds|
  {
    && cmds[i].Apply? && cmds[i].mode == Run && cmds[i].outcome(v) == Finished
    && v in Ran(Exec(env, History(env, ledger, cmds[..i]).ledger, cmds[i]).attempts)
  }

  lemma {:induction false} CompletesOf(before: Ledger, after: Ledger, v: string)
    requires before <= after
    ensures EverComplete(OfVersion(after, v)) <==>
            EverComplete(OfVersion(before, v)) || exists i | |before| <= i < |after| :: after[i] == Entry(v, Complete)
  {
    if after == before {
    } else {
      var m := |after| - 1;
      CompletesOf(before, after[..m], v);
      assert after == after[..m] + [after[m]];
      OfVersionStep(after[..m], after[m], v);
      if after[m].version == v {
        EverCompleteStep(OfVersion(after[..m], v), after[m]);
      }
      if exists i | |before| <= i < m :: after[..m][i] == Entry(v, Complete) {
        var i :| |before| <= i < m && after[..m][i] == Entry(v, Complete);
        assert after[i] == Entry(v, Complete);
      }
    }
  }

  lemma CompletedInRun(env: Env, ledger: Ledger, filter: Option<string>, outcome: string -> Outcome, v: string)
    requires env.Valid()
    ensures var e := Exec(env, ledger, Apply(filter, Run, outcome));
            EverComplete(OfVersion(e.ledger, v)) <==>
            EverComplete(OfVersion(ledger, v)) || (outcome(v) == Finished && v in Ran(e.attempts))
  {
    var e, toRun := Exec(env, ledger, Apply(filter, Run, outcome)), ToRun(env, ledger, filter);
    RunRecords(env, ledger, filter, outcome);
    if e.exit != 2 {
      CompletesOf(ledger, e.ledger, v);
      if outcome(v) == Finished && v in Ran(e.attempts) {
        var i :| 0 <= i < |e.attempts| && Ran(e.attempts)[i] == v;
        assert AttemptLeft(ledger, toRun, outcome, e, i);
      }
      if exists k | |ledger| <= k < |e.ledger| :: e.ledger[k] == Entry(v, Complete) {
        var k :| |ledger| <= k < |e.ledger| && e.ledger[k] == Entry(v, Complete);
        assert AttemptLeft(ledger, toRun, outcome, e, k - |ledger|);
        assert Ran(e.attempts)[k - |ledger|] == v;
      }
    }
  }

  lemma CompletedByExec(env: Env, ledger: Ledger, cmd: Command, v: string)
    requires env.Valid()
    ensures EverComplete(OfVersion(Exec(env, ledger, cmd).ledger, v)) <==>
            || EverComplete(OfVersion(ledger, v))
            || (cmd.Apply? && cmd.mode == Run && cmd.outcome(v) == Finished && v in Ran(Exec(env, ledger, cmd).attempts))
  {
    match cmd
    case ForceRetry(w) =>
      ForceRetryLaw(env, ledger, w);
      OfVersionStep(ledger, Entry(w, Retry), v);
      EverCompleteStep(OfVersion(ledger, v), Entry(w, Retry));
    case ForceOrchestrator =>
      ForceOrchestratorLaw(env, ledger, v);
      EverCompleteStep(OfVersion(ledger, v), Entry(v, Retry));
    case Apply(filter, mode, outcome) =>
      if mode == Run {
        CompletedInRun(env, ledger, filter, outcome, v);
      }
  }

  ghost predicate SomeFinished(env: Env, ledger: Ledger, cmds: seq<Command>, v: string) {
    exists i | 0 <= i < |cmds| :: FinishedAt(env, ledger, cmds, i, v)
  }

  lemma FinishedAtPrefix(env: Env, ledger: Ledger, cmds: seq<Command>, i: nat, v: string)
    requires i + 1 < |cmds|
    ensures FinishedAt(env, ledger, cmds[..|cmds| - 1], i, v) <==> FinishedAt(env, ledger, cmds, i, v)
  {
    assert cmds[..|cmds| - 1][..i] == cmds[..i];
  }

  lemma SomeFinishedGrows(env: Env, ledger: Ledger, cmds: seq<Command>, v: string)
    requires cmds != []
    requires SomeFinished(env, ledger, cmds[..|cmds| - 1], v)
    ensures SomeFinished(env, ledger, cmds, v)
  {
    var i :| 0 <= i < |cmds| - 1 && FinishedAt(env, ledger, cmds[..|cmds| - 1], i, v);
    FinishedAtPrefix(env, ledger, cmds, i, v);
  }

  lemma SomeFinishedStep(env: Env, ledger: Ledger, cmds: seq<Command>, v: string)
    requires cmds != []
    ensures SomeFinished(env, ledger, cmds, v) <==>
            SomeFinished(env, ledger, cmds[..|cmds| - 1], v) || FinishedAt(env, ledger, cmds, |cmds| - 1, v)
  {
    if SomeFinished(env, ledger, cmds[..|cmds| - 1], v) {
      SomeFinishedGrows(env, ledger, cmds, v);
    } else if SomeFinished(env, ledger, cmds, v) {
      var i :| 0 <= i < |cmds| && FinishedAt(env, ledger, cmds, i, v);
      if i < |cmds| - 1 {
        FinishedAtPrefix(env, ledger, cmds, i, v);
      }
    }
  }

  /** Over any history a version comes to be complete exactly by an attempt at it that finished. */
  lemma {:induction false} CompletedIffFinished(env: Env, ledger: Ledger, cmds: seq<Command>, v: string)
    requires env.Valid() && !EverComplete(OfVersion(ledger, v))
    ensures EverComplete(OfVersion(History(env, ledger, cmds).ledger, v)) <==> SomeFinished(env, ledger, cmds, v)
  {
    if cmds != [] {
      var m := |cmds| - 1;
      CompletedIffFinished(env, ledger, cmds[..m], v);
      CompletedByExec(env, History(env, ledger, cmds[..m]).ledger, cmds[m], v);
      SomeFinishedStep(env, ledger, cmds, v);
    }
  }
}
