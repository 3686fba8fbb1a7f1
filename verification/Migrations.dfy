/** `src/commands/apply-migrations.ts`: the append-only migration ledger and its runner. */
module Migrations {
  import opened Results
  import opened Sequences

  const MAX_CONSECUTIVE_PARTIALS: nat := 3

  datatype Status = Complete | Partial | Retry

  datatype Entry = Entry(version: string, status: Status)

  type Ledger = seq<Entry>

  /** `statusForVersion`'s answers. */
  datatype Resolution = Applied | Resumable | Pending | Wedged

  /** The entries of one version, oldest first. */
  function OfVersion(ledger: Ledger, version: string): seq<Entry> {
    if ledger == [] then []
    else
      var front, last := ledger[..|ledger| - 1], ledger[|ledger| - 1];
      if last.version == version then OfVersion(front, version) + [last] else OfVersion(front, version)
  }

  predicate EverComplete(h: seq<Entry>) {
    exists e | e in h :: e.status == Complete
  }

  /** The status of a version, told from its own entries: complete wins for good; a final
      retry asks for a fresh attempt; three partials at the end wedge it. */
  function StatusOf(h: seq<Entry>): Resolution {
    var n := |h|;
    if n == 0 then Pending
    else if EverComplete(h) then Applied
    else if h[n - 1].status == Retry then Pending
    else if n >= 3 && h[n - 1].status == h[n - 2].status == h[n - 3].status == Partial then Wedged
    else Resumable
  }

  // ---------------------------------------------------------------- index and status

  type Index = map<string, seq<Entry>>

  ghost predicate Indexes(idx: Index, ledger: Ledger) {
    && (forall v | v in idx :: idx[v] == OfVersion(ledger, v))
    && (forall v | v !in idx :: OfVersion(ledger, v) == [])
  }

  lemma OfVersionStep(ledger: Ledger, e: Entry, v: string)
    ensures OfVersion(ledger + [e], v) == if e.version == v then OfVersion(ledger, v) + [e] else OfVersion(ledger, v)
  {
    assert (ledger + [e])[..|ledger|] == ledger;
  }

  method IndexCompleted(entries: Ledger) returns (idx: Index)
    ensures Indexes(idx, entries)
  {
    idx := map[];
    for i := 0 to |entries|
      invariant Indexes(idx, entries[..i])
    {
      var e := entries[i];
      var list := (if e.version in idx then idx[e.version] else []) + [e];
      assert entries[..i + 1] == entries[..i] + [e];
      forall v ensures OfVersion(entries[..i + 1], v) ==
                       if e.version == v then OfVersion(entries[..i], v) + [e] else OfVersion(entries[..i], v) {
        OfVersionStep(entries[..i], e, v);
      }
      idx := idx[e.version := list];
    }
    assert entries[..|entries|] == entries;
  }

  /** How many partial entries end the history. */
  function Trailing(h: seq<Entry>): nat {
    if h == [] || h[|h| - 1].status != Partial then 0 else 1 + Trailing(h[..|h| - 1])
  }

  lemma TrailingThree(h: seq<Entry>)
    ensures Trailing(h) >= 3 <==>
            var n := |h|; n >= 3 && h[n - 1].status == h[n - 2].status == h[n - 3].status == Partial
  {
    if |h| >= 2 {
      assert h[..|h| - 1][..|h| - 2] == h[..|h| - 2];
      assert Trailing(h[..|h| - 1]) == if h[|h| - 2].status != Partial then 0 else 1 + Trailing(h[..|h| - 2]);
    }
  }

  lemma {:induction false} TrailingCounted(h: seq<Entry>, k: nat)
    requires k <= |h|
    requires forall i | |h| - k <= i < |h| :: h[i].status == Partial
    requires k == |h| || h[|h| - k - 1].status != Partial
    ensures Trailing(h) == k
  {
    if k > 0 {
      TrailingCounted(h[..|h| - 1], k - 1);
    }
  }

  /** `statusForVersion`, with its backward count; the last branch is never taken. */
  method StatusForVersion(version: string, idx: Index) returns (r: Resolution)
    ensures r == StatusOf(if version in idx then idx[version] else [])
  {
    var entries := if version in idx then idx[version] else [];
    if |entries| == 0 {
      return Pending;
    }
    if EverComplete(entries) {
      return Applied;
    }
    if entries[|entries| - 1].status == Retry {
      return Pending;
    }
    var consecutive := 0;
    var i := |entries|;
    while i > 0
      invariant 0 <= i <= |entries| && consecutive == |entries| - i
      invariant forall j | i <= j < |entries| :: entries[j].status == Partial
    {
      if entries[i - 1].status == Partial {
        consecutive := consecutive + 1;
      } else {
        break;
      }
      i := i - 1;
    }
    TrailingCounted(entries, consecutive);
    TrailingThree(entries);
    assert entries[|entries| - 1] in entries;
    r := Pending;
    if consecutive >= MAX_CONSECUTIVE_PARTIALS {
      r := Wedged;
    } else if exists e | e in entries :: e.status == Partial {
      r := Resumable;
    }
  }

  // ---------------------------------------------------------------- plan

  /** The registry in its own order, the installed version, and `compareVersions`. */
  datatype Env = Env(registry: seq<string>, installed: string, compare: (string, string) -> int) {

    predicate Newer(version: string) {
      compare(version, installed) > 0
    }

    ghost predicate Valid() {
      Distinct(registry)
    }
  }

  datatype Bucket = BApplied | BPartial | BPending | BFuture | BWedged | BFiltered

  function BucketOf(env: Env, ledger: Ledger, filter: Option<string>, version: string): Bucket {
    if filter.Some? && version != filter.value then BFiltered
    else if env.Newer(version) then BFuture
    else
      match StatusOf(OfVersion(ledger, version))
      case Applied => BApplied
      case Resumable => BPartial
      case Wedged => BWedged
      case Pending => BPending
  }

  /** The registered versions in bucket `b`, in registry order. */
  function Members(env: Env, versions: seq<string>, ledger: Ledger, filter: Option<string>, b: Bucket): seq<string> {
    if versions == [] then []
    else
      var front, last := versions[..|versions| - 1], versions[|versions| - 1];
      if BucketOf(env, ledger, filter, last) == b then Members(env, front, ledger, filter, b) + [last]
      else Members(env, front, ledger, filter, b)
  }

  datatype Plan = Plan(applied: seq<string>, partial: seq<string>, pending: seq<string>, skippedFuture: seq<string>,
                       wedged: seq<string>)

  function PlanSpec(env: Env, versions: seq<string>, ledger: Ledger, filter: Option<string>): Plan {
    Plan(Members(env, versions, ledger, filter, BApplied), Members(env, versions, ledger, filter, BPartial),
         Members(env, versions, ledger, filter, BPending), Members(env, versions, ledger, filter, BFuture),
         Members(env, versions, ledger, filter, BWedged))
  }

  method BuildPlan(env: Env, idx: Index, ghost ledger: Ledger, filter: Option<string>) returns (plan: Plan)
    requires Indexes(idx, ledger)
    ensures plan == PlanSpec(env, env.registry, ledger, filter)
  {
    plan := Plan([], [], [], [], []);
    for i := 0 to |env.registry|
      invariant plan == PlanSpec(env, env.registry[..i], ledger, filter)
    {
      var m := env.registry[i];
      assert env.registry[..i + 1][..i] == env.registry[..i];
      if filter.Some? && m != filter.value {
        continue;
      }
      if env.Newer(m) {
        plan := plan.(skippedFuture := plan.skippedFuture + [m]);
        continue;
      }
      var status := StatusForVersion(m, idx);
      match status {
        case Applied => plan := plan.(applied := plan.applied + [m]);
        case Resumable => plan := plan.(partial := plan.partial + [m]);
        case Wedged => plan := plan.(wedged := plan.wedged + [m]);
        case Pending => plan := plan.(pending := plan.pending + [m]);
      }
    }
    assert env.registry[..|env.registry|] == env.registry;
  }

  // ---------------------------------------------------------------- running

  datatype Outcome = Finished | HalfDone | Failed | Threw

  predicate Aborts(o: Outcome) {
    o.Failed? || o.Threw?
  }

  /** `appendCompletedMigration`: a second complete in a row is dropped. */
  function Append(ledger: Ledger, e: Entry): Ledger {
    var prior := OfVersion(ledger, e.version);
    if e.status == Complete && prior != [] && prior[|prior| - 1].status == Complete then ledger else ledger + [e]
  }

  function Recorded(version: string, o: Outcome): Entry {
    Entry(version, if o.Finished? then Complete else Partial)
  }

  /** One orchestrator run, with the ledger as it stood before it. */
  datatype Attempt = Attempt(version: string, before: Ledger)

  datatype Effect = Effect(ledger: Ledger, attempts: seq<Attempt>, exit: nat)

  /** The run loop: each orchestrator once, its result recorded, stop at the first failure. */
  function RunAll(ledger: Ledger, toRun: seq<string>, outcome: string -> Outcome): Effect
    decreases |toRun|
  {
    if toRun == [] then Effect(ledger, [], 0)
    else
      var v := toRun[0];
      var after := Append(ledger, Recorded(v, outcome(v)));
      if Aborts(outcome(v)) then Effect(after, [Attempt(v, ledger)], 1)
      else
        var rest := RunAll(after, toRun[1..], outcome);
        rest.(attempts := [Attempt(v, ledger)] + rest.attempts)
  }

  function ResetWedged(versions: seq<string>, ledger: Ledger): Ledger {
    if versions == [] then ledger
    else
      var front, last := versions[..|versions| - 1], versions[|versions| - 1];
      var before := ResetWedged(front, ledger);
      if StatusOf(OfVersion(ledger, last)) == Wedged then Append(before, Entry(last, Retry)) else before
  }

  datatype Mode = List | DryRun | Run

  /** One invocation: `--force-retry`, `--force-orchestrator`, or a plain run, which may be
      filtered by `--migration`. */
  datatype Command =
    | ForceRetry(version: string)
    | ForceOrchestrator
    | Apply(filter: Option<string>, mode: Mode, outcome: string -> Outcome)

  function ToRun(env: Env, ledger: Ledger, filter: Option<string>): seq<string> {
    Members(env, env.registry, ledger, filter, BPartial) + Members(env, env.registry, ledger, filter, BPending)
  }

  predicate NothingRegistered(plan: Plan) {
    |plan.applied| + |plan.partial| + |plan.pending| + |plan.skippedFuture| == 0
  }

  function Exec(env: Env, ledger: Ledger, cmd: Command): Effect {
    match cmd
    case ForceRetry(v) =>
      if v in env.registry then Effect(Append(ledger, Entry(v, Retry)), [], 0) else Effect(ledger, [], 2)
    case ForceOrchestrator => Effect(ResetWedged(env.registry, ledger), [], 0)
    case Apply(filter, mode, outcome) =>
      if filter.Some? && NothingRegistered(PlanSpec(env, env.registry, ledger, filter)) then Effect(ledger, [], 2)
      else if mode != Run then Effect(ledger, [], 0)
      else RunAll(ledger, ToRun(env, ledger, filter), outcome)
  }

  /** `all`, added to the attempts at the start, is `rest` added to the attempts so far. */
  ghost predicate Continues(all: Effect, before: seq<Attempt>, attempts: seq<Attempt>, rest: Effect) {
    all.ledger == rest.ledger && all.exit == rest.exit && before + all.attempts == attempts + rest.attempts
  }

  /** One turn of the run loop. */
  lemma RunStep(ledger: Ledger, toRun: seq<string>, i: nat, outcome: string -> Outcome, all: Effect,
                before: seq<Attempt>, attempts: seq<Attempt>)
    requires i < |toRun| && Continues(all, before, attempts, RunAll(ledger, toRun[i..], outcome))
    ensures var after := Append(ledger, Recorded(toRun[i], outcome(toRun[i])));
            Continues(all, before, attempts + [Attempt(toRun[i], ledger)],
                      if Aborts(outcome(toRun[i])) then Effect(after, [], 1) else RunAll(after, toRun[i + 1..], outcome))
  {
    assert toRun[i..][1..] == toRun[i + 1..];
  }

  class Runner {
    const env: Env
    var ledger: Ledger
    ghost var attempts: seq<Attempt>

    constructor (env: Env, ledger: Ledger)
      ensures this.env == env && this.ledger == ledger && attempts == []
    {
      this.env := env;
      this.ledger := ledger;
      attempts := [];
    }

    method AppendCompletedMigration(e: Entry)
      modifies this`ledger
      ensures ledger == Append(old(ledger), e)
    {
      if e.status == Complete {
        var idx := IndexCompleted(ledger);
        var prior := if e.version in idx then idx[e.version] else [];
        if |prior| > 0 && prior[|prior| - 1].status == Complete {
          return;
        }
      }
      ledger := ledger + [e];
    }

    method ResetAllWedged()
      modifies this`ledger
      ensures ledger == ResetWedged(env.registry, old(ledger))
    {
      var idx := IndexCompleted(ledger);
      for i := 0 to |env.registry|
        invariant ledger == ResetWedged(env.registry[..i], old(ledger))
      {
        var m := env.registry[i];
        assert env.registry[..i + 1][..i] == env.registry[..i];
        var status := StatusForVersion(m, idx);
        if status == Wedged {
          AppendCompletedMigration(Entry(m, Retry));
        }
      }
      assert env.registry[..|env.registry|] == env.registry;
    }

    method RunOrchestrators(toRun: seq<string>, outcome: string -> Outcome) returns (exit: nat)
      modifies this
      ensures var e := RunAll(old(ledger), toRun, outcome);
              ledger == e.ledger && exit == e.exit && attempts == old(attempts) + e.attempts
    {
      var failed := false;
      var i := 0;
      ghost var all := RunAll(ledger, toRun, outcome);
      while i < |toRun| && !failed
        invariant 0 <= i <= |toRun|
        invariant Continues(all, old(attempts), attempts, if failed then Effect(ledger, [], 1) else RunAll(ledger, toRun[i..], outcome))
        decreases |toRun| - i, !failed
      {
        var m := toRun[i];
        var result := outcome(m);
        RunStep(ledger, toRun, i, outcome, all, old(attempts), attempts);
        attempts := attempts + [Attempt(m, ledger)];
        AppendCompletedMigration(Recorded(m, result));
        if Aborts(result) {
          failed := true;
        }
        i := i + 1;
      }
      exit := if failed then 1 else 0;
    }

    /** `runApplyMigrations` once a brain is configured. */
    method Execute(cmd: Command) returns (exit: nat)
      modifies this
      ensures var e := Exec(env, old(ledger), cmd);
              ledger == e.ledger && exit == e.exit && attempts == old(attempts) + e.attempts
    {
      match cmd {
        case ForceRetry(v) =>
          if v !in env.registry {
            return 2;
          }
          AppendCompletedMigration(Entry(v, Retry));
          exit := 0;
        case ForceOrchestrator =>
          ResetAllWedged();
          exit := 0;
        case Apply(filter, mode, outcome) =>
          var idx := IndexCompleted(ledger);
          var plan := BuildPlan(env, idx, ledger, filter);
          if filter.Some? && NothingRegistered(plan) {
            return 2;
          }
          if mode != Run {
            return 0;
          }
          var toRun := plan.partial + plan.pending;
          exit := RunOrchestrators(toRun, outcome);
      }
    }
  }
}
