/** `src/commands/autopilot-fanout.ts`: which sources get a cycle on a tick. */
module Fanout {
  import opened Results
  import opened Sequences
  import opened Orders

  const FULL_CYCLE_FLOOR_MIN: nat := 60
  const MS_PER_MIN: nat := 60000

  /** `config.last_full_cycle_at`: not a string, no date, or a time in milliseconds. */
  datatype Stamp = Missing | Unparseable | At(ms: int)

  datatype Source = Source(id: string, stamp: Stamp, hasRemote: bool)

  function ReadLastFullCycleAt(src: Source): Option<int> {
    if src.stamp.At? then Some(src.stamp.ms) else None
  }

  predicate IsSourceStale(src: Source, now: int, floorMin: nat) {
    match ReadLastFullCycleAt(src)
    case None => true
    case Some(last) => now - last >= floorMin * MS_PER_MIN
  }

  /** `resolveFanoutMax`: a positive override, else 1 on PGLite and 4 elsewhere. */
  function ResolveFanoutMax(override: Option<int>, pglite: bool): (n: nat)
    ensures n >= 1
    ensures override.Some? && override.value > 0 ==> n == override.value
    ensures override == None || override.value <= 0 ==> n == (if pglite then 1 else 4)
  {
    if override.Some? && override.value >= 1 then override.value else if pglite then 1 else 4
  }

  /** Never completed first, then oldest, then by id under the locale's order. */
  predicate DueBefore(a: Source, b: Source, idLe: (string, string) -> bool) {
    match (ReadLastFullCycleAt(a), ReadLastFullCycleAt(b))
    case (None, None) => idLe(a.id, b.id)
    case (None, Some(_)) => true
    case (Some(_), None) => false
    case (Some(la), Some(lb)) => if la != lb then la < lb else idLe(a.id, b.id)
  }

  function DueOrder(idLe: (string, string) -> bool): (Source, Source) -> bool {
    (a: Source, b: Source) => DueBefore(a, b, idLe)
  }

  datatype Selection = Selection(dispatch: seq<Source>, skippedFresh: seq<Source>, skippedCap: seq<Source>)

  function WithStaleness(sources: seq<Source>, now: int, floorMin: nat, stale: bool): seq<Source> {
    if sources == [] then []
    else
      var front, last := sources[..|sources| - 1], sources[|sources| - 1];
      WithStaleness(front, now, floorMin, stale) + if IsSourceStale(last, now, floorMin) == stale then [last] else []
  }

  function Queue(sources: seq<Source>, now: int, floorMin: nat, idLe: (string, string) -> bool): seq<Source> {
    Sort(WithStaleness(sources, now, floorMin, true), DueOrder(idLe))
  }

  function Min(a: nat, b: nat): nat {
    if a <= b then a else b
  }

  function Select(sources: seq<Source>, fanoutMax: nat, now: int, floorMin: nat, idLe: (string, string) -> bool): Selection {
    var due := Queue(sources, now, floorMin, idLe);
    var cut := Min(fanoutMax, |due|);
    Selection(due[..cut], WithStaleness(sources, now, floorMin, false), due[cut..])
  }

  method SelectSourcesForDispatch(sources: seq<Source>, fanoutMax: nat, now: int, floorMin: nat,
                                  idLe: (string, string) -> bool)
      returns (r: Selection)
    ensures r == Select(sources, fanoutMax, now, floorMin, idLe)
  {
    var stale: seq<Source>, recent: seq<Source> := [], [];
    assert sources[..0] == [];
    for i := 0 to |sources|
      invariant stale == WithStaleness(sources[..i], now, floorMin, true)
      invariant recent == WithStaleness(sources[..i], now, floorMin, false)
    {
      assert sources[..i + 1][..i] == sources[..i];
      if IsSourceStale(sources[i], now, floorMin) {
        stale := stale + [sources[i]];
      } else {
        recent := recent + [sources[i]];
      }
    }
    assert sources[..|sources|] == sources;
    var due := Sort(stale, DueOrder(idLe));
    var cut := Min(fanoutMax, |due|);
    return Selection(due[..cut], recent, due[cut..]);
  }

  // ---------------------------------------------------------------- the dispatch loop

  /** What a cycle job carries; the legacy job names no source. */
  datatype Payload = Legacy | ForSource(id: string, pull: bool)

  type Jobs = map<string, Payload>

  function JobKey(id: string, slot: string): string {
    "autopilot-cycle:" + id + ":" + slot
  }

  /** `queue.add` with an idempotency key: a known key changes nothing. */
  function Enqueue(jobs: Jobs, key: string, payload: Payload): Jobs {
    if key in jobs then jobs else jobs[key := payload]
  }

  function Submit(jobs: Jobs, chosen: seq<Source>, slot: string, failing: set<string>): Jobs {
    if chosen == [] then jobs
    else
      var before, src := Submit(jobs, chosen[..|chosen| - 1], slot, failing), chosen[|chosen| - 1];
      if src.id in failing then before
      else Enqueue(before, JobKey(src.id, slot), ForSource(src.id, src.hasRemote))
  }

  function Submitted(chosen: seq<Source>, failing: set<string>): seq<string> {
    if chosen == [] then []
    else
      var src := chosen[|chosen| - 1];
      Submitted(chosen[..|chosen| - 1], failing) + if src.id in failing then [] else [src.id]
  }

  datatype FanoutResult = FanoutResult(dispatched: seq<string>, skippedFresh: seq<string>, skippedCap: seq<string>,
                                       legacyFallback: bool)

  class Dispatcher {
    var jobs: Jobs

    constructor ()
      ensures jobs == map[]
    {
      jobs := map[];
    }

    /** `dispatchPerSource`; `failing` are the sources whose submission throws. */
    method DispatchPerSource(sources: seq<Source>, fanoutMax: nat, now: int, slot: string,
                             idLe: (string, string) -> bool, failing: set<string>)
        returns (r: FanoutResult)
      modifies this
      ensures sources == [] ==>
                r == FanoutResult([], [], [], true) && jobs == Enqueue(old(jobs), "autopilot-cycle:" + slot, Legacy)
      ensures sources != [] ==>
                var chosen := Select(sources, fanoutMax, now, FULL_CYCLE_FLOOR_MIN, idLe);
                && jobs == Submit(old(jobs), chosen.dispatch, slot, failing)
                && r == FanoutResult(Submitted(chosen.dispatch, failing), Map(IdOf, chosen.skippedFresh),
                                     Map(IdOf, chosen.skippedCap), false)
    {
      if sources == [] {
        var key := "autopilot-cycle:" + slot;
        if key !in jobs {
          jobs := jobs[key := Legacy];
        }
        return FanoutResult([], [], [], true);
      }
      var chosen := SelectSourcesForDispatch(sources, fanoutMax, now, FULL_CYCLE_FLOOR_MIN, idLe);
      var dispatched := SubmitAll(chosen.dispatch, slot, failing);
      return FanoutResult(dispatched, Map(IdOf, chosen.skippedFresh), Map(IdOf, chosen.skippedCap), false);
    }

    /** The submit loop. */
    method SubmitAll(dispatch: seq<Source>, slot: string, failing: set<string>) returns (dispatched: seq<string>)
      modifies this
      ensures jobs == Submit(old(jobs), dispatch, slot, failing)
      ensures dispatched == Submitted(dispatch, failing)
    {
      dispatched := [];
      for i := 0 to |dispatch|
        invariant jobs == Submit(old(jobs), dispatch[..i], slot, failing)
        invariant dispatched == Submitted(dispatch[..i], failing)
      {
        var src := dispatch[i];
        assert dispatch[..i + 1][..i] == dispatch[..i];
        if src.id !in failing {
          var key := JobKey(src.id, slot);
          if key !in jobs {
            jobs := jobs[key := ForSource(src.id, src.hasRemote)];
          }
          dispatched := dispatched + [src.id];
        }
      }
      assert dispatch[..|dispatch|] == dispatch;
    }
  }

  /** Within a slot different sources never share a job. */
  lemma JobKeyInjective(a: string, b: string, slot: string)
    requires JobKey(a, slot) == JobKey(b, slot)
    ensures a == b
  {
    var head := |"autopilot-cycle:"|;
    assert |JobKey(a, slot)| == head + |a| + 1 + |slot| && |JobKey(b, slot)| == head + |b| + 1 + |slot|;
    assert a == JobKey(a, slot)[head..head + |a|];
    assert b == JobKey(b, slot)[head..head + |b|];
  }

  /** After a tick the slot holds one job for each source that could be submitted, nobody
      else's job appeared, and no earlier job changed. */
  lemma {:induction false} SubmitAddsExactly(jobs: Jobs, chosen: seq<Source>, slot: string, failing: set<string>)
    ensures var after := Submit(jobs, chosen, slot, failing);
            && (forall k | k in jobs :: k in after && after[k] == jobs[k])
            && (forall id :: JobKey(id, slot) in after <==>
                  JobKey(id, slot) in jobs || exists s :: s in chosen && s.id == id && id !in failing)
            && (forall k | k in after && k !in jobs :: exists s :: s in chosen && k == JobKey(s.id, slot))
  {
    if chosen != [] {
      var front, src := chosen[..|chosen| - 1], chosen[|chosen| - 1];
      SubmitAddsExactly(jobs, front, slot, failing);
      assert forall s :: s in chosen <==> s in front || s == src;
      forall id | JobKey(id, slot) == JobKey(src.id, slot) ensures id == src.id {
        JobKeyInjective(id, src.id, slot);
      }
    }
  }

  /** The job a source newly gets names that source, and pulls iff that source has a remote. */
  lemma {:induction false} JobNamesItsSource(jobs: Jobs, chosen: seq<Source>, slot: string, failing: set<string>, k: nat)
    requires DistinctIds(chosen) && k < |chosen| && chosen[k].id !in failing
    requires "autopilot-cycle:" + chosen[k].id + ":" + slot !in jobs
    ensures var key, after := "autopilot-cycle:" + chosen[k].id + ":" + slot, Submit(jobs, chosen, slot, failing);
            key in after && after[key] == ForSource(chosen[k].id, chosen[k].hasRemote)
  {
    var m := |chosen| - 1;
    if k < m {
      JobNamesItsSource(jobs, chosen[..m], slot, failing, k);
    } else {
      NotYetSubmitted(jobs, chosen, slot, failing);
    }
  }

  lemma NotYetSubmitted(jobs: Jobs, chosen: seq<Source>, slot: string, failing: set<string>)
    requires DistinctIds(chosen) && chosen != []
    requires JobKey(chosen[|chosen| - 1].id, slot) !in jobs
    ensures JobKey(chosen[|chosen| - 1].id, slot) !in Submit(jobs, chosen[..|chosen| - 1], slot, failing)
  {
    var m := |chosen| - 1;
    SubmitAddsExactly(jobs, chosen[..m], slot, failing);
    assert forall s | s in chosen[..m] :: s.id != chosen[m].id;
  }

  ghost predicate Precedes(ids: seq<string>, a: string, b: string) {
    exists p, q | 0 <= p < q < |ids| :: ids[p] == a && ids[q] == b
  }

  lemma PrecedesAppend(ids: seq<string>, more: seq<string>, a: string, b: string)
    requires Precedes(ids, a, b)
    ensures Precedes(ids + more, a, b)
  {
    var p, q :| 0 <= p < q < |ids| && ids[p] == a && ids[q] == b;
    assert (ids + more)[p] == a && (ids + more)[q] == b;
  }

  lemma LastFollows(ids: seq<string>, a: string, b: string)
    requires a in ids
    ensures Precedes(ids + [b], a, b)
  {
    var p :| 0 <= p < |ids| && ids[p] == a;
    assert (ids + [b])[p] == a && (ids + [b])[|ids|] == b;
  }

  lemma {:induction false} SubmittedMembers(chosen: seq<Source>, failing: set<string>)
    ensures forall id :: id in Submitted(chosen, failing) <==> id in Ids(chosen) && id !in failing
  {
    if chosen != [] {
      var m := |chosen| - 1;
      SubmittedMembers(chosen[..m], failing);
      assert chosen == chosen[..m] + [chosen[m]];
      assert Ids(chosen) == Ids(chosen[..m]) + {chosen[m].id};
    }
  }

  lemma {:induction false} SubmittedOnce(chosen: seq<Source>, failing: set<string>)
    requires DistinctIds(chosen)
    ensures Distinct(Submitted(chosen, failing))
  {
    if chosen != [] {
      var m := |chosen| - 1;
      SubmittedOnce(chosen[..m], failing);
      SubmittedMembers(chosen[..m], failing);
      assert chosen[m].id !in Ids(chosen[..m]);
    }
  }

  lemma {:induction false} SubmittedInOrder(chosen: seq<Source>, failing: set<string>, i: nat, j: nat)
    requires i < j < |chosen| && chosen[i].id !in failing && chosen[j].id !in failing
    ensures Precedes(Submitted(chosen, failing), chosen[i].id, chosen[j].id)
  {
    var m := |chosen| - 1;
    if j < m {
      SubmittedInOrder(chosen[..m], failing, i, j);
      PrecedesAppend(Submitted(chosen[..m], failing), if chosen[m].id in failing then [] else [chosen[m].id],
                     chosen[i].id, chosen[j].id);
    } else {
      SubmittedMembers(chosen[..m], failing);
      assert chosen[..m][i].id in Ids(chosen[..m]);
      LastFollows(Submitted(chosen[..m], failing), chosen[i].id, chosen[m].id);
    }
  }

  /** The ids reported as dispatched are those of the chosen sources whose submission went through, each once
      and in due order. */
  lemma ReportsSubmitted(chosen: seq<Source>, failing: set<string>)
    requires DistinctIds(chosen)
    ensures forall id :: id in Submitted(chosen, failing) <==> id in Ids(chosen) && id !in failing
    ensures Distinct(Submitted(chosen, failing))
    ensures forall i, j | 0 <= i < j < |chosen| && chosen[i].id !in failing && chosen[j].id !in failing ::
              Precedes(Submitted(chosen, failing), chosen[i].id, chosen[j].id)
  {
    SubmittedMembers(chosen, failing);
    SubmittedOnce(chosen, failing);
    forall i, j | 0 <= i < j < |chosen| && chosen[i].id !in failing && chosen[j].id !in failing
      ensures Precedes(Submitted(chosen, failing), chosen[i].id, chosen[j].id)
    {
      SubmittedInOrder(chosen, failing, i, j);
    }
  }

  /** A second tick in the same slot coalesces into the first. */
  lemma SameSlotCoalesces(jobs: Jobs, chosen: seq<Source>, slot: string, failing: set<string>)
    ensures Submit(Submit(jobs, chosen, slot, failing), chosen, slot, failing) == Submit(jobs, chosen, slot, failing)
  {
    var once := Submit(jobs, chosen, slot, failing);
    SubmitAddsExactly(jobs, chosen, slot, failing);
    KnownKeysChangeNothing(once, chosen, slot, failing);
  }

  lemma {:induction false} KnownKeysChangeNothing(jobs: Jobs, chosen: seq<Source>, slot: string, failing: set<string>)
    requires forall s | s in chosen && s.id !in failing :: JobKey(s.id, slot) in jobs
    ensures Submit(jobs, chosen, slot, failing) == jobs
  {
    if chosen != [] {
      KnownKeysChangeNothing(jobs, chosen[..|chosen| - 1], slot, failing);
      assert chosen[|chosen| - 1] in chosen;
    }
  }

  // ---------------------------------------------------------------- what a selection is

  lemma DueOrderIsPreorder(idLe: (string, string) -> bool)
    requires TotalOrder(idLe)
    ensures TotalPreorder(DueOrder(idLe))
  {
    var le := DueOrder(idLe);
    forall a, b ensures le(a, b) || le(b, a) {
      assert idLe(a.id, b.id) || idLe(b.id, a.id);
    }
    forall a, b, c | le(a, b) && le(b, c) ensures le(a, c) {
      if idLe(a.id, b.id) && idLe(b.id, c.id) {
        assert idLe(a.id, c.id);
      }
    }
  }

  lemma {:induction false} WithStalenessMembers(sources: seq<Source>, now: int, floorMin: nat, stale: bool)
    ensures forall s :: s in WithStaleness(sources, now, floorMin, stale) <==>
                        s in sources && IsSourceStale(s, now, floorMin) == stale
  {
    if sources != [] {
      WithStalenessMembers(sources[..|sources| - 1], now, floorMin, stale);
      assert sources == sources[..|sources| - 1] + [sources[|sources| - 1]];
    }
  }

  lemma {:induction false} StalenessSplits(sources: seq<Source>, now: int, floorMin: nat)
    ensures multiset(WithStaleness(sources, now, floorMin, true)) + multiset(WithStaleness(sources, now, floorMin, false))
            == multiset(sources)
  {
    if sources != [] {
      StalenessSplits(sources[..|sources| - 1], now, floorMin);
      FrontAndLast(sources);
    }
  }

  /** Every source ends up in exactly one list, by staleness. */
  lemma SelectionPartitions(sources: seq<Source>, fanoutMax: nat, now: int, floorMin: nat, idLe: (string, string) -> bool)
    ensures var r := Select(sources, fanoutMax, now, floorMin, idLe);
            && multiset(r.dispatch + r.skippedCap) + multiset(r.skippedFresh) == multiset(sources)
            && (forall s | s in r.dispatch + r.skippedCap :: IsSourceStale(s, now, floorMin))
            && (forall s | s in r.skippedFresh :: !IsSourceStale(s, now, floorMin))
  {
    var r := Select(sources, fanoutMax, now, floorMin, idLe);
    var due := Queue(sources, now, floorMin, idLe);
    assert due == r.dispatch + r.skippedCap;
    SortPermutes(WithStaleness(sources, now, floorMin, true), DueOrder(idLe));
    StalenessSplits(sources, now, floorMin);
    WithStalenessMembers(sources, now, floorMin, true);
    WithStalenessMembers(sources, now, floorMin, false);
    forall s | s in due ensures IsSourceStale(s, now, floorMin) {
      assert s in multiset(due);
    }
  }

  /** The cap is honoured and used up, and nothing over it was due before something
      dispatched. */
  lemma SelectionTakesOldest(sources: seq<Source>, fanoutMax: nat, now: int, floorMin: nat, idLe: (string, string) -> bool)
    requires TotalOrder(idLe)
    ensures var r := Select(sources, fanoutMax, now, floorMin, idLe);
            && |r.dispatch| <= fanoutMax && (r.skippedCap != [] ==> |r.dispatch| == fanoutMax)
            && (forall s, t | s in r.dispatch && t in r.skippedCap :: DueBefore(s, t, idLe))
  {
    var due := Queue(sources, now, floorMin, idLe);
    QueueSorted(sources, now, floorMin, idLe);
    EarlierHalfFirst(due, Min(fanoutMax, |due|), idLe);
  }

  lemma QueueSorted(sources: seq<Source>, now: int, floorMin: nat, idLe: (string, string) -> bool)
    requires TotalOrder(idLe)
    ensures SortedBy(Queue(sources, now, floorMin, idLe), DueOrder(idLe))
  {
    DueOrderIsPreorder(idLe);
    SortSorts(WithStaleness(sources, now, floorMin, true), DueOrder(idLe));
  }

  lemma EarlierHalfFirst(due: seq<Source>, cut: nat, idLe: (string, string) -> bool)
    requires SortedBy(due, DueOrder(idLe)) && cut <= |due|
    ensures forall s, t | s in due[..cut] && t in due[cut..] :: DueBefore(s, t, idLe)
  {
    forall s, t | s in due[..cut] && t in due[cut..] ensures DueBefore(s, t, idLe) {
      var i :| 0 <= i < cut && due[i] == s;
      var j :| cut <= j < |due| && due[j] == t;
      assert DueOrder(idLe)(due[i], due[j]);
    }
  }

  /** The line stands oldest first, sources that never completed a cycle at its head, and equals by id. */
  lemma OldestFirst(sources: seq<Source>, fanoutMax: nat, now: int, floorMin: nat, idLe: (string, string) -> bool,
                    i: nat, j: nat)
    requires TotalOrder(idLe)
    requires var r := Select(sources, fanoutMax, now, floorMin, idLe); i < j < |r.dispatch + r.skippedCap|
    ensures var r := Select(sources, fanoutMax, now, floorMin, idLe);
            var a, b := (r.dispatch + r.skippedCap)[i], (r.dispatch + r.skippedCap)[j];
            && (b.stamp.At? || !a.stamp.At?)
            && (a.stamp.At? ==> a.stamp.ms <= b.stamp.ms)
            && ((a.stamp.At? ==> a.stamp.ms == b.stamp.ms) && (b.stamp.At? ==> a.stamp.At?) ==> idLe(a.id, b.id))
  {
    var r, due := Select(sources, fanoutMax, now, floorMin, idLe), Queue(sources, now, floorMin, idLe);
    QueueSorted(sources, now, floorMin, idLe);
    assert r.dispatch + r.skippedCap == due;
    assert DueOrder(idLe)(due[i], due[j]);
  }

  /** A source is due again exactly an hour after its last full cycle, and until its first one always. */
  lemma DueAfterAnHour(src: Source, now: int)
    ensures IsSourceStale(src, now, FULL_CYCLE_FLOOR_MIN) <==> (src.stamp.At? ==> now >= src.stamp.ms + 3_600_000)
    ensures forall floorMin: nat :: IsSourceStale(src, now, floorMin) <==>
              (src.stamp.At? ==> now >= src.stamp.ms + 60_000 * floorMin)
  {
  }

  // ---------------------------------------------------------------- rank

  ghost predicate DistinctIds(sources: seq<Source>) {
    forall i, j | 0 <= i < j < |sources| :: sources[i].id != sources[j].id
  }

  function Ids(sources: seq<Source>): set<string> {
    set s | s in sources :: s.id
  }

  /** The ids of the stale sources due before `x`. */
  ghost function Ahead(sources: seq<Source>, x: Source, now: int, floorMin: nat, idLe: (string, string) -> bool): set<string> {
    set s | s in sources && s != x && IsSourceStale(s, now, floorMin) && DueBefore(s, x, idLe) :: s.id
  }

  lemma DueOrderStrict(a: Source, b: Source, idLe: (string, string) -> bool)
    requires TotalOrder(idLe) && a.id != b.id
    ensures !(DueBefore(a, b, idLe) && DueBefore(b, a, idLe))
  {
    assert !(idLe(a.id, b.id) && idLe(b.id, a.id));
  }

  lemma {:induction false} IdsCount(sources: seq<Source>)
    requires DistinctIds(sources)
    ensures |Ids(sources)| == |sources|
  {
    if sources != [] {
      var front, last := sources[..|sources| - 1], sources[|sources| - 1];
      IdsCount(front);
      assert last.id !in Ids(front);
      assert Ids(sources) == Ids(front) + {last.id};
    }
  }

  function IdOf(s: Source): string {
    s.id
  }

  lemma DistinctIdsPermuted(xs: seq<Source>, ys: seq<Source>)
    requires DistinctIds(xs) && multiset(xs) == multiset(ys)
    ensures DistinctIds(ys)
  {
    MapPermutes(IdOf, xs, ys);
    DistinctPermuted(Map(IdOf, xs), Map(IdOf, ys));
    assert forall i | 0 <= i < |ys| :: Map(IdOf, ys)[i] == ys[i].id;
  }

  lemma {:induction false} WithStalenessDistinct(sources: seq<Source>, now: int, floorMin: nat, stale: bool)
    requires DistinctIds(sources)
    ensures DistinctIds(WithStaleness(sources, now, floorMin, stale))
  {
    if sources != [] {
      WithStalenessDistinct(sources[..|sources| - 1], now, floorMin, stale);
      WithStalenessMembers(sources[..|sources| - 1], now, floorMin, stale);
      AppendDistinct(sources, WithStaleness(sources[..|sources| - 1], now, floorMin, stale));
    }
  }

  lemma AppendDistinct(sources: seq<Source>, kept: seq<Source>)
    requires sources != [] && DistinctIds(sources) && DistinctIds(kept)
    requires forall s | s in kept :: s in sources[..|sources| - 1]
    ensures DistinctIds(kept + [sources[|sources| - 1]])
  {
    forall i | 0 <= i < |kept| ensures kept[i].id != sources[|sources| - 1].id {
      assert kept[i] in kept;
      var j :| 0 <= j < |sources| - 1 && sources[j] == kept[i];
    }
  }

  /** The queue holds exactly the stale sources, once each, in due order. */
  lemma QueueShape(sources: seq<Source>, now: int, floorMin: nat, idLe: (string, string) -> bool)
    requires TotalOrder(idLe) && DistinctIds(sources)
    ensures var due := Queue(sources, now, floorMin, idLe);
            && SortedBy(due, DueOrder(idLe)) && DistinctIds(due)
            && (forall s :: s in due <==> s in sources && IsSourceStale(s, now, floorMin))
  {
    var stale := WithStaleness(sources, now, floorMin, true);
    var due := Queue(sources, now, floorMin, idLe);
    DueOrderIsPreorder(idLe);
    SortSorts(stale, DueOrder(idLe));
    SortPermutes(stale, DueOrder(idLe));
    WithStalenessMembers(sources, now, floorMin, true);
    WithStalenessDistinct(sources, now, floorMin, true);
    DistinctIdsPermuted(stale, due);
    forall s ensures s in due <==> s in stale {
      assert s in multiset(due) <==> s in multiset(stale);
    }
  }

  /** A stale source's place in the queue is the number of stale sources due before it. */
  lemma PlaceIsRank(sources: seq<Source>, now: int, floorMin: nat, idLe: (string, string) -> bool, p: nat)
    requires TotalOrder(idLe) && DistinctIds(sources)
    requires p < |Queue(sources, now, floorMin, idLe)|
    ensures var due := Queue(sources, now, floorMin, idLe);
            && Ahead(sources, due[p], now, floorMin, idLe) == Ids(due[..p])
            && |Ahead(sources, due[p], now, floorMin, idLe)| == p
  {
    var due := Queue(sources, now, floorMin, idLe);
    QueueShape(sources, now, floorMin, idLe);
    var x := due[p];
    var ahead := Ahead(sources, x, now, floorMin, idLe);
    forall id | id in Ids(due[..p]) ensures id in ahead {
      var i :| 0 <= i < p && due[i].id == id;
      assert DueOrder(idLe)(due[i], due[p]);
      assert due[i] in due;
    }
    forall id | id in ahead ensures id in Ids(due[..p]) {
      var s :| s in sources && s != x && IsSourceStale(s, now, floorMin) && DueBefore(s, x, idLe) && s.id == id;
      assert s in due;
      var i :| 0 <= i < |due| && due[i] == s;
      if i > p {
        assert DueOrder(idLe)(due[p], due[i]);
        DueOrderStrict(s, x, idLe);
        assert false;
      }
      assert s in due[..p];
    }
    IdsCount(due[..p]);
  }

  ghost predicate Dispatched(sources: seq<Source>, x: Source, fanoutMax: nat, now: int, floorMin: nat,
                             idLe: (string, string) -> bool) {
    x in Select(sources, fanoutMax, now, floorMin, idLe).dispatch
  }

  /** A source is dispatched exactly when it is stale and fewer than `fanoutMax` stale
      sources are due before it. */
  lemma DispatchedIffRank(sources: seq<Source>, x: Source, fanoutMax: nat, now: int, floorMin: nat,
                          idLe: (string, string) -> bool)
    requires TotalOrder(idLe) && DistinctIds(sources) && x in sources
    ensures Dispatched(sources, x, fanoutMax, now, floorMin, idLe) <==>
            IsSourceStale(x, now, floorMin) && |Ahead(sources, x, now, floorMin, idLe)| < fanoutMax
  {
    var due := Queue(sources, now, floorMin, idLe);
    var cut := Min(fanoutMax, |due|);
    QueueShape(sources, now, floorMin, idLe);
    if x in due {
      var p :| 0 <= p < |due| && due[p] == x;
      PlaceIsRank(sources, now, floorMin, idLe, p);
      if p < cut {
        assert due[..cut][p] == x;
      } else {
        assert forall q | 0 <= q < cut :: due[q].id != x.id;
      }
    } else {
      assert forall s | s in due[..cut] :: s in due;
    }
  }

  // ---------------------------------------------------------------- runs

  /** The source rows a dispatching tick reads, and when. */
  datatype Tick = Tick(rows: seq<Source>, now: int)

  ghost predicate SameIds(a: seq<Source>, b: seq<Source>) {
    Ids(a) == Ids(b)
  }

  function Row(rows: seq<Source>, id: string): Source
    requires id in Ids(rows)
  {
    if rows[|rows| - 1].id == id then rows[|rows| - 1]
    else
      assert id in Ids(rows[..|rows| - 1]);
      Row(rows[..|rows| - 1], id)
  }

  lemma {:induction false} RowFound(rows: seq<Source>, id: string)
    requires id in Ids(rows)
    ensures Row(rows, id) in rows && Row(rows, id).id == id
  {
    if rows[|rows| - 1].id != id {
      RowFound(rows[..|rows| - 1], id);
    }
  }

  lemma RowUnique(rows: seq<Source>, s: Source)
    requires DistinctIds(rows) && s in rows
    ensures Row(rows, s.id) == s
  {
    RowFound(rows, s.id);
    var r := Row(rows, s.id);
    var i :| 0 <= i < |rows| && rows[i] == s;
    var j :| 0 <= j < |rows| && rows[j] == r;
  }

  /** One scheduling policy over one set of sources. `healthy` sources complete every cycle
      they are given before the next dispatching tick. */
  datatype Policy = Policy(fanoutMax: nat, floorMin: nat, idLe: (string, string) -> bool, healthy: set<string>)

  ghost predicate Given(t: Tick, id: string, p: Policy) {
    id in Ids(t.rows) && Dispatched(t.rows, Row(t.rows, id), p.fanoutMax, t.now, p.floorMin, p.idLe)
  }

  ghost predicate StampedSince(src: Source, time: int) {
    src.stamp.At? && src.stamp.ms >= time
  }

  /** Between two dispatching ticks stamps only change by a cycle completing, which stamps
      its completion time; every healthy source given a cycle has completed one. */
  ghost predicate Step(t: Tick, t': Tick, p: Policy) {
    && DistinctIds(t.rows) && DistinctIds(t'.rows) && SameIds(t.rows, t'.rows) && t.now <= t'.now
    && (forall id | id in Ids(t.rows) ::
          Row(t'.rows, id).stamp == Row(t.rows, id).stamp || StampedSince(Row(t'.rows, id), t.now))
    && (forall id | id in p.healthy && Given(t, id, p) :: StampedSince(Row(t'.rows, id), t.now))
  }

  ghost predicate StepAt(ticks: seq<Tick>, k: nat, p: Policy)
    requires k + 1 < |ticks|
  {
    Step(ticks[k], ticks[k + 1], p)
  }

  ghost predicate Run(ticks: seq<Tick>, p: Policy) {
    && (forall k | 0 <= k < |ticks| :: DistinctIds(ticks[k].rows))
    && (forall k | 0 <= k < |ticks| - 1 :: StepAt(ticks, k, p))
  }

  /** Nothing but a dispatch of its own moves the stamp of `x`. */
  ghost predicate OnlyOwnDispatch(ticks: seq<Tick>, x: string, p: Policy) {
    forall k | 0 <= k < |ticks| - 1 :: OwnDispatchAt(ticks, k, x, p)
  }

  ghost predicate OwnDispatchAt(ticks: seq<Tick>, k: nat, x: string, p: Policy)
    requires k + 1 < |ticks|
  {
    x in Ids(ticks[k].rows) && x in Ids(ticks[k + 1].rows) && !Given(ticks[k], x, p) ==>
      Row(ticks[k + 1].rows, x).stamp == Row(ticks[k].rows, x).stamp
  }

  ghost function Waiting(t: Tick, x: string, p: Policy): set<string>
    requires x in Ids(t.rows)
  {
    Ahead(t.rows, Row(t.rows, x), t.now, p.floorMin, p.idLe)
  }

  /** A stamp set at or after a tick puts its source behind everything stale at that tick. */
  lemma StampedFallsBehind(s: Source, x: Source, time: int, floorMin: nat, idLe: (string, string) -> bool)
    requires floorMin > 0 && IsSourceStale(x, time, floorMin) && StampedSince(s, time)
    ensures !DueBefore(s, x, idLe)
  {
  }

  lemma OlderIsStaler(s: Source, x: Source, time: int, floorMin: nat, idLe: (string, string) -> bool)
    requires IsSourceStale(x, time, floorMin) && DueBefore(s, x, idLe)
    ensures IsSourceStale(s, time, floorMin)
  {
  }

  lemma StaleStays(a: Source, b: Source, time: int, later: int, floorMin: nat)
    requires a.stamp == b.stamp && time <= later && IsSourceStale(a, time, floorMin)
    ensures IsSourceStale(b, later, floorMin)
  {
  }

  lemma DueBeforeByStamps(s: Source, x: Source, s': Source, x': Source, idLe: (string, string) -> bool)
    requires s.id == s'.id && x.id == x'.id && s.stamp == s'.stamp && x.stamp == x'.stamp
    ensures DueBefore(s, x, idLe) == DueBefore(s', x', idLe)
  {
  }

  /** While `x` waits, whoever is ahead of it was ahead before, and is not one of the
      healthy sources just served. */
  lemma AheadNeverGrows(t: Tick, t': Tick, x: string, p: Policy, id: string)
    requires Step(t, t', p) && p.floorMin > 0 && TotalOrder(p.idLe)
    requires x in Ids(t.rows) && Row(t'.rows, x).stamp == Row(t.rows, x).stamp
    requires IsSourceStale(Row(t.rows, x), t.now, p.floorMin)
    requires id in Waiting(t', x, p)
    ensures id in Waiting(t, x, p) && !(id in p.healthy && Given(t, id, p))
  {
    RowFound(t.rows, x);
    RowFound(t'.rows, x);
    var a, b := Row(t.rows, x), Row(t'.rows, x);
    var s' :| s' in t'.rows && s' != b && IsSourceStale(s', t'.now, p.floorMin) && DueBefore(s', b, p.idLe) && s'.id == id;
    RowUnique(t'.rows, s');
    assert id in Ids(t'.rows) && id in Ids(t.rows);
    RowFound(t.rows, id);
    var s := Row(t.rows, id);
    assert b.stamp == a.stamp;
    StaleStays(a, b, t.now, t.now, p.floorMin);
    if StampedSince(s', t.now) {
      StampedFallsBehind(s', b, t.now, p.floorMin, p.idLe);
      assert false;
    }
    assert s'.stamp == s.stamp;
    DueBeforeByStamps(s, a, s', b, p.idLe);
    OlderIsStaler(s, a, t.now, p.floorMin, p.idLe);
    if s == a {
      RowUnique(t'.rows, b);
      assert false;
    }
  }

  /** The ids given a cycle on a tick. */
  ghost function Served(t: Tick, p: Policy): set<string> {
    Ids(Select(t.rows, p.fanoutMax, t.now, p.floorMin, p.idLe).dispatch)
  }

  /** A stale source that is passed over has a full cap of sources ahead of it. */
  lemma PassedOver(t: Tick, x: string, p: Policy)
    requires TotalOrder(p.idLe) && DistinctIds(t.rows) && x in Ids(t.rows)
    requires IsSourceStale(Row(t.rows, x), t.now, p.floorMin) && !Given(t, x, p)
    ensures Served(t, p) <= Waiting(t, x, p) && |Served(t, p)| == p.fanoutMax
    ensures forall id | id in Served(t, p) :: Given(t, id, p)
  {
    var due := Queue(t.rows, t.now, p.floorMin, p.idLe);
    QueueShape(t.rows, t.now, p.floorMin, p.idLe);
    RowFound(t.rows, x);
    var a := Row(t.rows, x);
    DispatchedIffRank(t.rows, a, p.fanoutMax, t.now, p.floorMin, p.idLe);
    var at :| 0 <= at < |due| && due[at] == a;
    PlaceIsRank(t.rows, t.now, p.floorMin, p.idLe, at);
    assert p.fanoutMax <= at;
    ServedStandAhead(t, p, at);
  }

  lemma ServedStandAhead(t: Tick, p: Policy, at: nat)
    requires TotalOrder(p.idLe) && DistinctIds(t.rows)
    requires p.fanoutMax <= at <= |Queue(t.rows, t.now, p.floorMin, p.idLe)|
    ensures Served(t, p) <= Ids(Queue(t.rows, t.now, p.floorMin, p.idLe)[..at]) && |Served(t, p)| == p.fanoutMax
    ensures forall id | id in Served(t, p) :: Given(t, id, p)
  {
    var due := Queue(t.rows, t.now, p.floorMin, p.idLe);
    QueueShape(t.rows, t.now, p.floorMin, p.idLe);
    var chosen := due[..p.fanoutMax];
    assert Select(t.rows, p.fanoutMax, t.now, p.floorMin, p.idLe).dispatch == chosen;
    forall id | id in Ids(chosen) ensures id in Ids(due[..at]) && Given(t, id, p) {
      var s :| s in chosen && s.id == id;
      assert s in due[..at] && s in due;
      RowUnique(t.rows, s);
    }
    IdsCount(chosen);
  }

  /** Every tick that passes `x` over shortens the line ahead of it by the cap less the
      number of unhealthy sources in that line. */
  lemma LineShortens(t: Tick, t': Tick, x: string, p: Policy, gain: nat)
    requires Step(t, t', p) && p.floorMin > 0 && TotalOrder(p.idLe)
    requires x in Ids(t.rows) && Row(t'.rows, x).stamp == Row(t.rows, x).stamp
    requires IsSourceStale(Row(t.rows, x), t.now, p.floorMin) && !Given(t, x, p)
    requires |Waiting(t, x, p) - p.healthy| + gain <= p.fanoutMax
    ensures Waiting(t', x, p) <= Waiting(t, x, p)
    ensures |Waiting(t', x, p)| + gain <= |Waiting(t, x, p)|
  {
    PassedOver(t, x, p);
    var before, after, served := Waiting(t, x, p), Waiting(t', x, p), Served(t, p);
    forall id | id in after ensures id in before - served * p.healthy {
      AheadNeverGrows(t, t', x, p, id);
    }
    ServedLeave(before, after, served, p.healthy);
  }

  lemma ServedLeave(before: set<string>, after: set<string>, served: set<string>, healthy: set<string>)
    requires served <= before && after <= before - served * healthy
    ensures |after| + |served| <= |before| + |before - healthy|
  {
    var done := served * healthy;
    SubsetSize(after, before - done);
    SubsetSize(served - healthy, before - healthy);
    assert before == (before - done) + done;
    assert served == done + (served - healthy);
  }

  lemma WaitingStep(t: Tick, t': Tick, x: string, p: Policy, gain: nat, first: set<string>)
    requires Step(t, t', p) && p.floorMin > 0 && TotalOrder(p.idLe)
    requires x in Ids(t.rows) && Row(t'.rows, x).stamp == Row(t.rows, x).stamp
    requires IsSourceStale(Row(t.rows, x), t.now, p.floorMin) && !Given(t, x, p)
    requires Waiting(t, x, p) <= first && |first - p.healthy| + gain <= p.fanoutMax
    ensures IsSourceStale(Row(t'.rows, x), t'.now, p.floorMin)
    ensures Waiting(t', x, p) <= first && |Waiting(t', x, p)| + gain <= |Waiting(t, x, p)|
  {
    StaleStays(Row(t.rows, x), Row(t'.rows, x), t.now, t'.now, p.floorMin);
    SubsetSize(Waiting(t, x, p) - p.healthy, first - p.healthy);
    LineShortens(t, t', x, p, gain);
  }

  /** `x`, still stale, waits behind what is left of the line `first` after it lost `spent`. */
  ghost predicate StillWaiting(t: Tick, x: string, p: Policy, first: set<string>, spent: nat) {
    && x in Ids(t.rows) && IsSourceStale(Row(t.rows, x), t.now, p.floorMin)
    && Waiting(t, x, p) <= first && |Waiting(t, x, p)| + spent <= |first|
  }

  lemma StillWaitingNext(t: Tick, t': Tick, x: string, p: Policy, gain: nat, first: set<string>, spent: nat)
    requires Step(t, t', p) && p.floorMin > 0 && TotalOrder(p.idLe) && StillWaiting(t, x, p, first, spent)
    requires Row(t'.rows, x).stamp == Row(t.rows, x).stamp && !Given(t, x, p)
    requires |first - p.healthy| + gain <= p.fanoutMax
    ensures StillWaiting(t', x, p, first, spent + gain)
  {
    WaitingStep(t, t', x, p, gain, first);
  }

  /** `k` times `gain`. */
  function Lost(k: nat, gain: nat): nat {
    if k == 0 then 0 else Lost(k - 1, gain) + gain
  }

  lemma {:induction false} LostIsProduct(k: nat, gain: nat)
    ensures Lost(k, gain) == k * gain
  {
    if k > 0 {
      LostIsProduct(k - 1, gain);
      assert k * gain == (k - 1) * gain + gain;
    }
  }

  lemma PassedOverStep(ticks: seq<Tick>, x: string, p: Policy, k: nat)
    requires Run(ticks, p) && OnlyOwnDispatch(ticks, x, p) && k + 1 < |ticks|
    requires x in Ids(ticks[k].rows) && !Given(ticks[k], x, p)
    ensures Step(ticks[k], ticks[k + 1], p) && x in Ids(ticks[k + 1].rows)
    ensures Row(ticks[k + 1].rows, x).stamp == Row(ticks[k].rows, x).stamp
  {
    assert StepAt(ticks, k, p) && OwnDispatchAt(ticks, k, x, p);
  }

  /** After `k` ticks that passed `x` over the line ahead of it has lost `k` times `gain`. */
  lemma {:induction false} WaitingLine(ticks: seq<Tick>, x: string, p: Policy, gain: nat, k: nat, first: set<string>)
    requires Run(ticks, p) && k < |ticks| && p.floorMin > 0 && TotalOrder(p.idLe) && OnlyOwnDispatch(ticks, x, p)
    requires StillWaiting(ticks[0], x, p, first, 0) && |first - p.healthy| + gain <= p.fanoutMax
    requires forall i | 0 <= i < k :: !Given(ticks[i], x, p)
    ensures StillWaiting(ticks[k], x, p, first, Lost(k, gain))
  {
    if k > 0 {
      WaitingLine(ticks, x, p, gain, k - 1, first);
      PassedOverStep(ticks, x, p, k - 1);
      StillWaitingNext(ticks[k - 1], ticks[k], x, p, gain, first, Lost(k - 1, gain));
    }
  }

  lemma LineWithoutX(t: Tick, x: string, p: Policy)
    requires DistinctIds(t.rows) && x in Ids(t.rows)
    ensures Waiting(t, x, p) <= Ids(t.rows) && |Waiting(t, x, p)| < |t.rows|
  {
    RowFound(t.rows, x);
    var line := Waiting(t, x, p);
    assert x !in line by {
      forall s | s in t.rows && s.id == x ensures s == Row(t.rows, x) {
        RowUnique(t.rows, s);
      }
    }
    SubsetSize(line + {x}, Ids(t.rows));
    IdsCount(t.rows);
  }

  lemma LastTurn(ticks: nat, gain: nat, first: nat, last: nat)
    requires ticks > 0 && last + (ticks - 1) * gain <= first < ticks * gain
    ensures last < gain
  {
    assert ticks * gain == (ticks - 1) * gain + gain;
  }

  lemma GivenWhenNear(t: Tick, x: string, p: Policy)
    requires TotalOrder(p.idLe) && DistinctIds(t.rows) && x in Ids(t.rows)
    requires IsSourceStale(Row(t.rows, x), t.now, p.floorMin) && |Waiting(t, x, p)| < p.fanoutMax
    ensures Given(t, x, p)
  {
    RowFound(t.rows, x);
    DispatchedIffRank(t.rows, Row(t.rows, x), p.fanoutMax, t.now, p.floorMin, p.idLe);
  }

  /** Bounded waiting: with `gain` more slots than there are sources ahead of `x` that never
      complete, `x` is dispatched by the time the ticks times `gain` exceed the line ahead of it. */
  lemma BoundedWaiting(ticks: seq<Tick>, x: string, p: Policy, gain: nat)
    requires Run(ticks, p) && ticks != [] && p.floorMin > 0 && TotalOrder(p.idLe)
    requires x in Ids(ticks[0].rows) && OnlyOwnDispatch(ticks, x, p)
    requires IsSourceStale(Row(ticks[0].rows, x), ticks[0].now, p.floorMin)
    requires |Waiting(ticks[0], x, p) - p.healthy| + gain <= p.fanoutMax
    requires |ticks| * gain > |Waiting(ticks[0], x, p)|
    ensures exists k | 0 <= k < |ticks| :: Given(ticks[k], x, p)
  {
    if forall k | 0 <= k < |ticks| :: !Given(ticks[k], x, p) {
      var last := |ticks| - 1;
      WaitingLine(ticks, x, p, gain, last, Waiting(ticks[0], x, p));
      LostIsProduct(last, gain);
      LastTurn(|ticks|, gain, |Waiting(ticks[0], x, p)|, |Waiting(ticks[last], x, p)|);
      GivenWhenNear(ticks[last], x, p);
    }
  }

  /** With n sources and `gain` more slots than there are sources that never complete, that is
      at the latest after n / gain dispatching ticks, rounded up. */
  lemma WaitingBoundedBySources(ticks: seq<Tick>, x: string, p: Policy, gain: nat)
    requires Run(ticks, p) && ticks != [] && p.floorMin > 0 && TotalOrder(p.idLe)
    requires x in Ids(ticks[0].rows) && OnlyOwnDispatch(ticks, x, p)
    requires IsSourceStale(Row(ticks[0].rows, x), ticks[0].now, p.floorMin)
    requires |Ids(ticks[0].rows) - p.healthy| + gain <= p.fanoutMax
    requires |ticks| * gain >= |ticks[0].rows|
    ensures exists k | 0 <= k < |ticks| :: Given(ticks[k], x, p)
  {
    LineWithoutX(ticks[0], x, p);
    SubsetSize(Waiting(ticks[0], x, p) - p.healthy, Ids(ticks[0].rows) - p.healthy);
    BoundedWaiting(ticks, x, p, gain);
  }

  /** No cycle of these sources ever completes. */
  ghost predicate NeverComplete(ticks: seq<Tick>, ids: set<string>)
    requires ticks != []
  {
    forall i, id | 0 <= i < |ticks| && id in ids && id in Ids(ticks[i].rows) && id in Ids(ticks[0].rows) ::
      Row(ticks[i].rows, id).stamp == Row(ticks[0].rows, id).stamp
  }

  /** Exactly who is served: given more ticks than there are sources ahead of it, a stale source
      is dispatched iff fewer of them than the cap never complete. */
  lemma ServedIff(ticks: seq<Tick>, x: string, p: Policy)
    requires Run(ticks, p) && ticks != [] && p.floorMin > 0 && TotalOrder(p.idLe)
    requires x in Ids(ticks[0].rows) && OnlyOwnDispatch(ticks, x, p)
    requires IsSourceStale(Row(ticks[0].rows, x), ticks[0].now, p.floorMin)
    requires |ticks| > |Waiting(ticks[0], x, p)|
    requires NeverComplete(ticks, Waiting(ticks[0], x, p) - p.healthy)
    ensures (exists k | 0 <= k < |ticks| :: Given(ticks[k], x, p))
            <==> |Waiting(ticks[0], x, p) - p.healthy| < p.fanoutMax
  {
    var stuck := Waiting(ticks[0], x, p) - p.healthy;
    if |stuck| < p.fanoutMax {
      var gain := p.fanoutMax - |stuck|;
      AtLeastOnce(|ticks|, gain);
      BoundedWaiting(ticks, x, p, gain);
    } else {
      forall k | 0 <= k < |ticks| ensures !Given(ticks[k], x, p) {
        BrokenSourcesStarve(ticks, x, p, stuck, k);
      }
    }
  }

  lemma AtLeastOnce(n: nat, gain: nat)
    requires gain > 0
    ensures n * gain >= n
  {
  }

  /** A full cap of sources that stay ahead of `x` and never complete keeps it waiting for ever. */
  lemma {:induction false} BrokenSourcesStarve(ticks: seq<Tick>, x: string, p: Policy, stuck: set<string>, k: nat)
    requires Run(ticks, p) && k < |ticks| && TotalOrder(p.idLe)
    requires x in Ids(ticks[0].rows) && OnlyOwnDispatch(ticks, x, p)
    requires IsSourceStale(Row(ticks[0].rows, x), ticks[0].now, p.floorMin)
    requires stuck <= Waiting(ticks[0], x, p) && |stuck| >= p.fanoutMax
    requires NeverComplete(ticks, stuck)
    ensures Ids(ticks[k].rows) == Ids(ticks[0].rows)
    ensures Row(ticks[k].rows, x).stamp == Row(ticks[0].rows, x).stamp && ticks[0].now <= ticks[k].now
    ensures !Given(ticks[k], x, p)
  {
    if k > 0 {
      BrokenSourcesStarve(ticks, x, p, stuck, k - 1);
      assert StepAt(ticks, k - 1, p) && OwnDispatchAt(ticks, k - 1, x, p);
    }
    forall id | id in stuck ensures id in Waiting(ticks[k], x, p) {
      StuckAhead(ticks[0], ticks[k], x, id, p);
    }
    SubsetSize(stuck, Waiting(ticks[k], x, p));
    RowFound(ticks[k].rows, x);
    DispatchedIffRank(ticks[k].rows, Row(ticks[k].rows, x), p.fanoutMax, ticks[k].now, p.floorMin, p.idLe);
  }

  lemma StuckAhead(t: Tick, t': Tick, x: string, id: string, p: Policy)
    requires DistinctIds(t.rows) && DistinctIds(t'.rows) && Ids(t.rows) == Ids(t'.rows) && t.now <= t'.now
    requires x in Ids(t.rows) && id in Waiting(t, x, p)
    requires Row(t'.rows, x).stamp == Row(t.rows, x).stamp
    requires id in Ids(t.rows) ==> Row(t'.rows, id).stamp == Row(t.rows, id).stamp
    ensures id in Waiting(t', x, p)
  {
    var a, b := Row(t.rows, x), Row(t'.rows, x);
    RowFound(t.rows, x);
    RowFound(t'.rows, x);
    var s :| s in t.rows && s != a && IsSourceStale(s, t.now, p.floorMin) && DueBefore(s, a, p.idLe) && s.id == id;
    RowUnique(t.rows, s);
    RowFound(t'.rows, id);
    var s' := Row(t'.rows, id);
    StaleStays(s, s', t.now, t'.now, p.floorMin);
    DueBeforeByStamps(s, a, s', b, p.idLe);
    if s' == b {
      RowUnique(t.rows, a);
      assert false;
    }
  }
}
