/** `scripts/sharding.ts`: weight-aware partitioning of test files into shards. */
module Sharding {
  import opened Results
  import opened Sequences
  import opened Orders
  import opened OrderedMaps
  import opened Lpt

  type WeightMap = OrderedMap<string, real>

  datatype PartitionError = BadShardCount(n: int) | BadFallback(weight: real)

  type Outcome = Result<seq<seq<string>>, PartitionError>

  /** What `loadWeights` guarantees of every map it returns. */
  ghost predicate LoadedWeights(weights: WeightMap) {
    weights.Valid() && forall f | f in weights.at :: weights.at[f] >= 0.0
  }

  // ---------------------------------------------------------------- median

  predicate RealLe(a: real, b: real) {
    a <= b
  }

  function ComputeMedian(values: seq<real>): real {
    if values == [] then 0.0
    else
      SortPermutes(values, RealLe);
      var sorted := Sort(values, RealLe);
      var mid := |sorted| / 2;
      if |sorted| % 2 == 0 then 0.5 * (sorted[mid - 1] + sorted[mid]) else sorted[mid]
  }

  function Count(p: real -> bool, xs: seq<real>): nat {
    if xs == [] then 0 else (if p(xs[0]) then 1 else 0) + Count(p, xs[1..])
  }

  lemma {:induction false} CountInsert(p: real -> bool, x: real, xs: seq<real>)
    ensures Count(p, Insert(x, xs, RealLe)) == Count(p, [x] + xs)
  {
    assert ([x] + xs)[1..] == xs;
    if xs != [] && !RealLe(x, xs[0]) {
      CountInsert(p, x, xs[1..]);
      assert ([x] + xs[1..])[1..] == xs[1..];
    }
  }

  lemma {:induction false} CountSort(p: real -> bool, xs: seq<real>)
    ensures Count(p, Sort(xs, RealLe)) == Count(p, xs)
  {
    if xs != [] {
      CountSort(p, xs[1..]);
      CountInsert(p, xs[0], Sort(xs[1..], RealLe));
      assert ([xs[0]] + Sort(xs[1..], RealLe))[1..] == Sort(xs[1..], RealLe);
    }
  }

  lemma {:induction false} CountAtLeast(p: real -> bool, xs: seq<real>, lo: nat, hi: nat)
    requires lo <= hi <= |xs| && forall i | lo <= i < hi :: p(xs[i])
    ensures Count(p, xs) >= hi - lo
  {
    if hi > 0 {
      CountAtLeast(p, xs[1..], if lo == 0 then 0 else lo - 1, hi - 1);
    }
  }

  lemma Midpoint(a: real, b: real)
    requires a <= b
    ensures a <= 0.5 * (a + b) <= b
  {
  }

  /** The sorted values, with the median no less than the first `half` of them and no
      more than the last `half`. */
  lemma MedianInSorted(values: seq<real>) returns (sorted: seq<real>, half: nat)
    requires values != []
    ensures sorted == Sort(values, RealLe) && half <= |sorted| == |values| <= 2 * half
    ensures forall i | 0 <= i < half :: sorted[i] <= ComputeMedian(values)
    ensures forall i | |sorted| - half <= i < |sorted| :: sorted[i] >= ComputeMedian(values)
  {
    sorted := Sort(values, RealLe);
    var mid, median := |values| / 2, ComputeMedian(values);
    half := |values| - mid;
    SortPermutes(values, RealLe);
    SortSorts(values, RealLe);
    assert sorted[half - 1] <= median <= sorted[mid] by {
      if |values| % 2 == 0 {
        assert half == mid && RealLe(sorted[mid - 1], sorted[mid]);
        Midpoint(sorted[mid - 1], sorted[mid]);
      } else {
        assert half == mid + 1;
      }
    }
    AroundPivots(sorted, half, mid, median);
  }

  lemma AroundPivots(sorted: seq<real>, half: nat, mid: nat, median: real)
    requires SortedBy(sorted, RealLe) && 0 < half <= |sorted| && mid < |sorted|
    requires sorted[half - 1] <= median <= sorted[mid]
    ensures forall i | 0 <= i < half :: sorted[i] <= median
    ensures forall i | mid <= i < |sorted| :: sorted[i] >= median
  {
    forall i | 0 <= i < half ensures sorted[i] <= median {
      if i < half - 1 { assert RealLe(sorted[i], sorted[half - 1]); }
    }
    forall i | mid <= i < |sorted| ensures sorted[i] >= median {
      if mid < i { assert RealLe(sorted[mid], sorted[i]); }
    }
  }

  /** At least half of the values lie on either side of the median. */
  lemma MedianIsCentral(values: seq<real>)
    ensures var m := ComputeMedian(values);
            2 * Count(v => v <= m, values) >= |values| && 2 * Count(v => v >= m, values) >= |values|
  {
    if values != [] {
      var m := ComputeMedian(values);
      var sorted, half := MedianInSorted(values);
      CentralCount(values, sorted, half, m);
    }
  }

  lemma CentralCount(values: seq<real>, sorted: seq<real>, half: nat, m: real)
    requires sorted == Sort(values, RealLe) && half <= |sorted|
    requires forall i | 0 <= i < half :: sorted[i] <= m
    requires forall i | |sorted| - half <= i < |sorted| :: sorted[i] >= m
    ensures Count(v => v <= m, values) >= half && Count(v => v >= m, values) >= half
  {
    var below, above := (v: real) => v <= m, (v: real) => v >= m;
    CountAtLeast(below, sorted, 0, half);
    CountAtLeast(above, sorted, |sorted| - half, |sorted|);
    CountSort(below, values);
    CountSort(above, values);
  }

  lemma MedianNonNegative(values: seq<real>)
    requires forall v | v in values :: v >= 0.0
    ensures ComputeMedian(values) >= 0.0
  {
    if values != [] {
      var sorted, half := MedianInSorted(values);
      SortPermutes(values, RealLe);
      assert sorted[0] in multiset(sorted);
      assert sorted[0] in values;
      assert sorted[0] <= ComputeMedian(values);
    }
  }

  // ---------------------------------------------------------------- effective weights

  /** The weight of a file the map does not list. A zero median counts as one, so that an
      unmined corpus is not a pile of weightless files. */
  function FallbackWeight(weights: WeightMap, override: Option<real>): real
    requires weights.Valid()
  {
    match override
    case Some(w) => w
    case None =>
      var median := ComputeMedian(weights.Values());
      if median == 0.0 then 1.0 else median
  }

  function EffectiveWeight(weights: WeightMap, fallback: real, file: string): real {
    if file in weights.at then weights.at[file] else fallback
  }

  function JobFor(weights: WeightMap, fallback: real): string -> Job {
    (file: string) => Job(file, EffectiveWeight(weights, fallback, file))
  }

  function JobsOf(files: seq<string>, weights: WeightMap, fallback: real): seq<Job> {
    Map(JobFor(weights, fallback), files)
  }

  function PathOf(job: Job): string {
    job.path
  }

  function PathsOf(jobs: seq<Job>): seq<string> {
    Map(PathOf, jobs)
  }

  function AllPaths(shards: seq<seq<Job>>): (out: seq<seq<string>>)
    ensures |out| == |shards|
    ensures forall s | 0 <= s < |shards| :: out[s] == PathsOf(shards[s])
  {
    seq(|shards|, s requires 0 <= s < |shards| => PathsOf(shards[s]))
  }

  function PartitionSpec(files: seq<string>, weights: WeightMap, n: int, override: Option<real>): Outcome
    requires weights.Valid()
  {
    if n <= 0 then Err(BadShardCount(n))
    else if files == [] then Ok(seq(n, _ => []))
    else if override.Some? && override.value < 0.0 then Err(BadFallback(override.value))
    else Ok(AllPaths(Greedy(Sort(JobsOf(files, weights, FallbackWeight(weights, override)), JobLe), n)))
  }

  // ---------------------------------------------------------------- the loop

  method MinIndex(totals: array<real>) returns (minIdx: nat)
    requires totals.Length > 0
    ensures minIdx == ArgMin(totals[..], totals.Length)
  {
    minIdx := 0;
    for i := 1 to totals.Length
      invariant minIdx == ArgMin(totals[..], i)
    {
      if totals[i] < totals[minIdx] {
        minIdx := i;
      }
    }
  }

  /** One turn of the loop, seen on paths and on totals. */
  lemma PlacementOnPaths(tuples: seq<Job>, t: nat, n: nat, k: nat, total: real)
    requires n > 0 && t < |tuples| && k == ArgMin(Loads(Greedy(tuples[..t], n)), n)
    requires total == Loads(Greedy(tuples[..t], n))[k] + tuples[t].weight
    ensures var before, after := Greedy(tuples[..t], n), Greedy(tuples[..t + 1], n);
            && AllPaths(after) == AllPaths(before)[k := AllPaths(before)[k] + [tuples[t].path]]
            && Loads(after) == Loads(before)[k := total]
  {
    assert tuples[..t + 1][..t] == tuples[..t];
    LoadsUpdate(Greedy(tuples[..t], n), k, tuples[t], total);
    PathsUpdate(Greedy(tuples[..t], n), k, tuples[t]);
  }

  lemma PathsUpdate(shards: seq<seq<Job>>, k: nat, j: Job)
    requires k < |shards|
    ensures AllPaths(shards[k := shards[k] + [j]]) == AllPaths(shards)[k := AllPaths(shards)[k] + [j.path]]
  {
    assert PathsOf(shards[k] + [j]) == PathsOf(shards[k]) + [j.path];
  }

  /** The placement loop: running totals, one scan for the least loaded shard per file. */
  method PlaceAll(tuples: seq<Job>, n: nat) returns (r: seq<seq<string>>)
    requires n > 0
    ensures r == AllPaths(Greedy(tuples, n))
  {
    var shards := new seq<string>[n](_ => []);
    var totals := new real[n](_ => 0.0);
    assert tuples[..0] == [] && shards[..] == AllPaths(Greedy([], n)) && totals[..] == Loads(Greedy([], n));
    for t := 0 to |tuples|
      invariant shards.Length == totals.Length == n
      invariant shards[..] == AllPaths(Greedy(tuples[..t], n))
      invariant totals[..] == Loads(Greedy(tuples[..t], n))
    {
      var minIdx := MinIndex(totals);
      var total := totals[minIdx] + tuples[t].weight;
      PlacementOnPaths(tuples, t, n, minIdx, total);
      shards[minIdx] := shards[minIdx] + [tuples[t].path];
      totals[minIdx] := total;
    }
    assert tuples[..|tuples|] == tuples;
    r := shards[..];
  }

  /** `partition`. */
  method Partition(files: seq<string>, weights: WeightMap, n: int, override: Option<real>) returns (r: Outcome)
    requires weights.Valid()
    ensures r == PartitionSpec(files, weights, n, override)
  {
    if n <= 0 {
      return Err(BadShardCount(n));
    }
    if files == [] {
      return Ok(seq(n, _ => []));
    }
    if override.Some? && override.value < 0.0 {
      return Err(BadFallback(override.value));
    }
    var tuples := JobsOf(files, weights, FallbackWeight(weights, override));
    var shards := PlaceAll(Sort(tuples, JobLe), n);
    return Ok(shards);
  }

  // ---------------------------------------------------------------- what the result promises

  ghost predicate Accepted(n: int, override: Option<real>) {
    n > 0 && (override.Some? ==> override.value >= 0.0)
  }

  function ShardLoad(shard: seq<string>, weights: WeightMap, fallback: real): real {
    Load(JobsOf(shard, weights, fallback))
  }

  function Makespan(shards: seq<seq<string>>, weights: WeightMap, fallback: real): (m: real)
    requires shards != []
    ensures forall s | 0 <= s < |shards| :: ShardLoad(shards[s], weights, fallback) <= m
    ensures exists s | 0 <= s < |shards| :: ShardLoad(shards[s], weights, fallback) == m
  {
    var last := |shards| - 1;
    var load := ShardLoad(shards[last], weights, fallback);
    if last == 0 then load
    else
      var m := Makespan(shards[..last], weights, fallback);
      if load > m then load else
        assert exists s | 0 <= s < last :: ShardLoad(shards[..last][s], weights, fallback) == m;
        m
  }

  lemma FallbackNonNegative(weights: WeightMap, override: Option<real>)
    requires LoadedWeights(weights) && (override.Some? ==> override.value >= 0.0)
    ensures FallbackWeight(weights, override) >= 0.0
  {
    MedianNonNegative(weights.Values());
  }

  lemma JobsNonNegative(files: seq<string>, weights: WeightMap, override: Option<real>)
    requires LoadedWeights(weights) && (override.Some? ==> override.value >= 0.0)
    ensures NonNegative(JobsOf(files, weights, FallbackWeight(weights, override)))
  {
    FallbackNonNegative(weights, override);
  }

  ghost predicate Weighted(jobs: seq<Job>, weights: WeightMap, fallback: real) {
    forall j | j in jobs :: j.weight == EffectiveWeight(weights, fallback, j.path)
  }

  lemma SortedJobs(files: seq<string>, weights: WeightMap, override: Option<real>) returns (jobs: seq<Job>)
    requires LoadedWeights(weights) && (override.Some? ==> override.value >= 0.0)
    ensures jobs == Sort(JobsOf(files, weights, FallbackWeight(weights, override)), JobLe)
    ensures SortedBy(jobs, JobLe) && NonNegative(jobs) && Weighted(jobs, weights, FallbackWeight(weights, override))
    ensures multiset(jobs) == multiset(JobsOf(files, weights, FallbackWeight(weights, override)))
  {
    var unsorted := JobsOf(files, weights, FallbackWeight(weights, override));
    jobs := Sort(unsorted, JobLe);
    JobOrder();
    SortSorts(unsorted, JobLe);
    SortPermutes(unsorted, JobLe);
    JobsNonNegative(files, weights, override);
    forall j | j in jobs ensures j in unsorted {
      assert j in multiset(jobs);
    }
  }

  lemma WeightedRoundTrip(jobs: seq<Job>, weights: WeightMap, fallback: real)
    requires Weighted(jobs, weights, fallback)
    ensures JobsOf(PathsOf(jobs), weights, fallback) == jobs
  {
    forall i | 0 <= i < |jobs| ensures jobs[i].weight == EffectiveWeight(weights, fallback, jobs[i].path) {
      assert jobs[i] in jobs;
    }
  }

  /** The greedy shards behind a result. */
  lemma Behind(files: seq<string>, weights: WeightMap, n: int, override: Option<real>)
      returns (jobs: seq<Job>, shards: seq<seq<Job>>)
    requires LoadedWeights(weights) && Accepted(n, override)
    ensures SortedBy(jobs, JobLe) && NonNegative(jobs)
    ensures multiset(jobs) == multiset(JobsOf(files, weights, FallbackWeight(weights, override)))
    ensures shards == Greedy(jobs, n)
    ensures PartitionSpec(files, weights, n, override) == Ok(AllPaths(shards))
    ensures forall s | 0 <= s < n :: JobsOf(AllPaths(shards)[s], weights, FallbackWeight(weights, override)) == shards[s]
  {
    var fallback := FallbackWeight(weights, override);
    jobs := SortedJobs(files, weights, override);
    shards := Greedy(jobs, n);
    GreedyCovers(jobs, n);
    forall s | 0 <= s < n ensures JobsOf(AllPaths(shards)[s], weights, fallback) == shards[s] {
      ShardJobsAreJobs(jobs, shards, s);
      WeightedRoundTrip(shards[s], weights, fallback);
    }
    if files == [] {
      assert AllPaths(shards) == seq(n, _ => []);
    }
  }

  /** `shards` with every path replaced by its job. */
  function AllJobs(shards: seq<seq<string>>, weights: WeightMap, fallback: real): (out: seq<seq<Job>>)
    ensures |out| == |shards|
    ensures forall s | 0 <= s < |shards| :: out[s] == JobsOf(shards[s], weights, fallback)
  {
    seq(|shards|, s requires 0 <= s < |shards| => JobsOf(shards[s], weights, fallback))
  }

  /** Every file appears in exactly one shard, once per occurrence in the input. */
  lemma PartitionCovers(files: seq<string>, weights: WeightMap, n: int, override: Option<real>)
    requires LoadedWeights(weights) && Accepted(n, override)
    ensures var r := PartitionSpec(files, weights, n, override);
            r.Ok? && |r.value| == n && multiset(Flatten(r.value)) == multiset(files)
  {
    var jobs, shards := Behind(files, weights, n, override);
    GreedyCovers(jobs, n);
    FlattenMap(PathOf, shards, AllPaths(shards));
    var unsorted := JobsOf(files, weights, FallbackWeight(weights, override));
    MapPermutes(PathOf, Flatten(shards), unsorted);
    assert PathsOf(unsorted) == files;
  }

  lemma MakespanWithin(out: seq<seq<string>>, n: nat, weights: WeightMap, fallback: real, cap: real, bound: real)
    requires n > 0 && |out| == n && FourThirds(n, cap, bound)
    requires forall s | 0 <= s < n :: ShardLoad(out[s], weights, fallback) <= bound
    ensures WithinFourThirds(n, Makespan(out, weights, fallback), cap)
  {
    var s :| 0 <= s < n && ShardLoad(out[s], weights, fallback) == Makespan(out, weights, fallback);
    BelowBound(n, Makespan(out, weights, fallback), cap, bound);
  }

  /** The header's promise: for every rival assignment of the same files to n shards,
      the heaviest shard weighs at most (4/3 - 1/(3n)) of the rival's heaviest. */
  lemma PartitionWithinFourThirds(files: seq<string>, weights: WeightMap, n: int, override: Option<real>,
                                  rival: seq<seq<string>>)
    requires LoadedWeights(weights) && Accepted(n, override)
    requires |rival| == n && multiset(Flatten(rival)) == multiset(files)
    ensures var r := PartitionSpec(files, weights, n, override);
            var fallback := FallbackWeight(weights, override);
            var cap := Makespan(rival, weights, fallback);
            && r.Ok? && |r.value| == n
            && WithinFourThirds(n, Makespan(r.value, weights, fallback), cap)
  {
    var fallback := FallbackWeight(weights, override);
    var jobs, shards := Behind(files, weights, n, override);
    var opponent := AllJobs(rival, weights, fallback);
    FlattenMap(JobFor(weights, fallback), rival, opponent);
    MapPermutes(JobFor(weights, fallback), Flatten(rival), files);
    var cap := Makespan(rival, weights, fallback);
    forall s | 0 <= s < n ensures Load(opponent[s]) <= cap {
      assert ShardLoad(rival[s], weights, fallback) <= cap;
    }
    var bound := FourThirdsExists(n, cap);
    GreedyWithinFourThirds(jobs, n, opponent, cap, bound);
    MakespanWithin(AllPaths(shards), n, weights, fallback, cap, bound);
  }

  /** The order in which files are listed does not matter. */
  lemma PartitionIgnoresOrder(files: seq<string>, files': seq<string>, weights: WeightMap, n: int, override: Option<real>)
    requires weights.Valid() && multiset(files) == multiset(files')
    ensures PartitionSpec(files, weights, n, override) == PartitionSpec(files', weights, n, override)
  {
    assert |files| == |multiset(files)| == |multiset(files')| == |files'|;
    var fallback := FallbackWeight(weights, override);
    var a, b := JobsOf(files, weights, fallback), JobsOf(files', weights, fallback);
    MapPermutes(JobFor(weights, fallback), files, files');
    JobOrder();
    SortSorts(a, JobLe);
    SortSorts(b, JobLe);
    SortPermutes(a, JobLe);
    SortPermutes(b, JobLe);
    SortedUnique(Sort(a, JobLe), Sort(b, JobLe), JobLe);
  }

  /** A shard outweighs any other by at most the file it received last. */
  lemma PartitionSpread(files: seq<string>, weights: WeightMap, n: int, override: Option<real>, s: nat, t: nat)
    requires LoadedWeights(weights) && Accepted(n, override) && s < n && t < n
    ensures var r := PartitionSpec(files, weights, n, override);
            var fallback := FallbackWeight(weights, override);
            && r.Ok? && |r.value| == n
            && (r.value[s] != [] ==>
                  ShardLoad(r.value[s], weights, fallback) - ShardLoad(r.value[t], weights, fallback)
                  <= EffectiveWeight(weights, fallback, r.value[s][|r.value[s]| - 1]))
  {
    var jobs, shards := Behind(files, weights, n, override);
    if shards[s] != [] {
      SpreadWithinLastJob(jobs, n, s, t);
      var fallback := FallbackWeight(weights, override);
      var last := |shards[s]| - 1;
      assert JobsOf(AllPaths(shards)[s], weights, fallback)[last] == shards[s][last];
    }
  }

  lemma {:induction false} StridePaths(jobs: seq<Job>, n: nat, s: nat)
    requires n > 0
    ensures PathsOf(Stride(jobs, n, s)) == Stride(PathsOf(jobs), n, s)
  {
    if jobs != [] {
      var m := |jobs| - 1;
      StridePaths(jobs[..m], n, s);
      assert PathsOf(jobs)[..m] == PathsOf(jobs[..m]);
    }
  }

  /** The files, by path, are dealt out round-robin. */
  ghost predicate DealtInTurn(files: seq<string>, weights: WeightMap, n: nat, override: Option<real>)
    requires weights.Valid() && n > 0
  {
    var r := PartitionSpec(files, weights, n, override);
    && r.Ok? && |r.value| == n
    && forall s | 0 <= s < n ::
         && r.value[s] == Stride(Sort(files, StringLe), n, s)
         && |r.value[s]| == |files| / n + (if s < |files| % n then 1 else 0)
  }

  /** Before any weights are mined every fallback but an explicit zero gives round-robin. */
  lemma ColdStartRoundRobin(files: seq<string>, weights: WeightMap, n: nat, override: Option<real>)
    requires weights.Valid() && weights.keys == [] && Accepted(n, override) && override != Some(0.0)
    ensures DealtInTurn(files, weights, n, override)
  {
    var c := FallbackWeight(weights, override);
    var jobs, shards := Behind(files, weights, n, override);
    var unsorted := JobsOf(files, weights, c);
    forall j | j in jobs ensures j.weight == c {
      assert j in multiset(unsorted);
    }
    EqualWeightsRoundRobin(jobs, n, c);
    EqualWeightsSortByPath(files, jobs, unsorted, c);
    SortPermutes(files, StringLe);
    forall s | 0 <= s < n
      ensures AllPaths(shards)[s] == Stride(Sort(files, StringLe), n, s)
      ensures |AllPaths(shards)[s]| == |files| / n + (if s < |files| % n then 1 else 0)
    {
      StridePaths(jobs, n, s);
      StrideSize(Sort(files, StringLe), n, s);
    }
  }

  /** Exactly which fallbacks do: on two or more shards every file list is dealt out round-robin iff the
      fallback is not an explicit zero. */
  lemma ColdStartIff(weights: WeightMap, n: nat, override: Option<real>)
    requires weights.Valid() && weights.keys == [] && Accepted(n, override) && n >= 2
    ensures (forall files :: DealtInTurn(files, weights, n, override)) <==> override != Some(0.0)
  {
    if override == Some(0.0) {
      var files := ["a", "b"];
      ZeroOverrideCollapses(files, weights, n);
      var first := PartitionSpec(files, weights, n, override).value[0];
      assert |multiset(first)| == |multiset(files)| == 2;
      assert |files| / n + (if 0 < |files| % n then 1 else 0) == 1;
      assert !DealtInTurn(files, weights, n, override);
    } else {
      forall files ensures DealtInTurn(files, weights, n, override) {
        ColdStartRoundRobin(files, weights, n, override);
      }
    }
  }

  lemma EqualWeightsSortByPath(files: seq<string>, jobs: seq<Job>, unsorted: seq<Job>, c: real)
    requires SortedBy(jobs, JobLe) && multiset(jobs) == multiset(unsorted)
    requires PathsOf(unsorted) == files && forall j | j in jobs :: j.weight == c
    ensures PathsOf(jobs) == Sort(files, StringLe)
  {
    StringOrder();
    SortPermutes(files, StringLe);
    SortSorts(files, StringLe);
    MapPermutes(PathOf, jobs, unsorted);
    forall i, j | 0 <= i < j < |jobs| ensures StringLe(PathsOf(jobs)[i], PathsOf(jobs)[j]) {
      assert JobLe(jobs[i], jobs[j]) && jobs[i] in jobs && jobs[j] in jobs;
    }
    SortedUnique(PathsOf(jobs), Sort(files, StringLe), StringLe);
  }

  /** Why the cold-start guard is there: an explicit zero fallback without mined weights
      puts every file on the first shard. */
  lemma ZeroOverrideCollapses(files: seq<string>, weights: WeightMap, n: int)
    requires weights.Valid() && weights.keys == [] && n > 0
    ensures var r := PartitionSpec(files, weights, n, Some(0.0));
            r.Ok? && |r.value| == n && multiset(r.value[0]) == multiset(files)
  {
    var jobs, shards := Behind(files, weights, n, Some(0.0));
    var unsorted := JobsOf(files, weights, 0.0);
    forall j | j in jobs ensures j.weight == 0.0 {
      assert j in multiset(unsorted);
    }
    ZeroWeightsCollapse(jobs, n);
    MapPermutes(PathOf, jobs, unsorted);
    assert PathsOf(unsorted) == files;
  }

  // ---------------------------------------------------------------- imbalance

  datatype Ratio = Finite(value: real) | Infinite

  function Lightest(shards: seq<seq<string>>, weights: WeightMap, fallback: real): (m: real)
    requires shards != []
    ensures forall s | 0 <= s < |shards| :: m <= ShardLoad(shards[s], weights, fallback)
    ensures exists s | 0 <= s < |shards| :: ShardLoad(shards[s], weights, fallback) == m
  {
    var last := |shards| - 1;
    var load := ShardLoad(shards[last], weights, fallback);
    if last == 0 then load
    else
      var m := Lightest(shards[..last], weights, fallback);
      if load < m then load else
        assert exists s | 0 <= s < last :: ShardLoad(shards[..last][s], weights, fallback) == m;
        m
  }

  function ImbalanceRatio(shards: seq<seq<string>>, weights: WeightMap, fallback: real): Ratio {
    if shards == [] then Finite(1.0)
    else
      var max, min := Makespan(shards, weights, fallback), Lightest(shards, weights, fallback);
      if min == 0.0 then if max == 0.0 then Finite(1.0) else Infinite
      else Finite(max / min)
  }

  /** A ratio of one means perfect balance, also when every shard is weightless; infinity
      means some shard weighs nothing while another weighs something. */
  lemma ImbalanceMeaning(shards: seq<seq<string>>, weights: WeightMap, fallback: real)
    requires LoadedWeights(weights) && fallback >= 0.0
    ensures var ratio := ImbalanceRatio(shards, weights, fallback);
            && (ratio == Finite(1.0) <==>
                  forall s, t | 0 <= s < |shards| && 0 <= t < |shards| ::
                    ShardLoad(shards[s], weights, fallback) == ShardLoad(shards[t], weights, fallback))
            && (ratio == Infinite <==>
                  exists s, t | 0 <= s < |shards| && 0 <= t < |shards| ::
                    ShardLoad(shards[s], weights, fallback) == 0.0 < ShardLoad(shards[t], weights, fallback))
            && (ratio.Finite? ==> ratio.value >= 1.0)
  {
    if shards != [] {
      var max, min := Makespan(shards, weights, fallback), Lightest(shards, weights, fallback);
      var hi :| 0 <= hi < |shards| && ShardLoad(shards[hi], weights, fallback) == max;
      var lo :| 0 <= lo < |shards| && ShardLoad(shards[lo], weights, fallback) == min;
      forall s | 0 <= s < |shards| ensures 0.0 <= min <= ShardLoad(shards[s], weights, fallback) <= max {
        SumNonNegative(JobsOf(shards[lo], weights, fallback));
      }
      if min > 0.0 {
        QuotientOfOrdered(max, min);
      }
    }
  }

  /** With no weightless shard the ratio is that of the heaviest to the lightest. */
  lemma RatioOfExtremes(shards: seq<seq<string>>, weights: WeightMap, fallback: real) returns (hi: nat, lo: nat)
    requires shards != [] && forall s | 0 <= s < |shards| :: ShardLoad(shards[s], weights, fallback) > 0.0
    ensures hi < |shards| && lo < |shards|
    ensures ImbalanceRatio(shards, weights, fallback)
            == Finite(ShardLoad(shards[hi], weights, fallback) / ShardLoad(shards[lo], weights, fallback))
    ensures forall s | 0 <= s < |shards| ::
              ShardLoad(shards[lo], weights, fallback) <= ShardLoad(shards[s], weights, fallback)
              <= ShardLoad(shards[hi], weights, fallback)
  {
    hi :| 0 <= hi < |shards| && ShardLoad(shards[hi], weights, fallback) == Makespan(shards, weights, fallback);
    lo :| 0 <= lo < |shards| && ShardLoad(shards[lo], weights, fallback) == Lightest(shards, weights, fallback);
  }

  /** An empty shard does not make the ratio infinite when the others are empty too, and does when another
      weighs something. */
  lemma EmptyShardRatio(file: string, weights: WeightMap, fallback: real)
    requires LoadedWeights(weights) && fallback >= 0.0
    ensures ImbalanceRatio([[], []], weights, fallback) == Finite(1.0)
    ensures EffectiveWeight(weights, fallback, file) > 0.0 ==> ImbalanceRatio([[], [file]], weights, fallback) == Infinite
  {
    ImbalanceMeaning([[], []], weights, fallback);
    ImbalanceMeaning([[], [file]], weights, fallback);
    var shards := [[], [file]];
    var job := JobFor(weights, fallback)(file);
    assert JobsOf([file], weights, fallback) == [job] && [job][..0] == [];
    assert ShardLoad(shards[0], weights, fallback) == 0.0;
    assert ShardLoad(shards[1], weights, fallback) == EffectiveWeight(weights, fallback, file);
  }

  lemma QuotientOfOrdered(max: real, min: real)
    requires 0.0 < min <= max
    ensures max / min >= 1.0 && (max / min == 1.0 <==> max == min)
  {
    var q := max / min;
    assert q * min == max;
    assert (q - 1.0) * min == max - min;
  }
}
