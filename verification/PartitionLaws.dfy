/** What `partition` promises, told in the weights of the files themselves.

    The weight of a file is given here by any function that agrees with the map on the listed files and with
    the documented fallback on the others, so the laws say what `Sharding` has to look up. */
module PartitionLaws {
  import opened Results
  import opened Sequences
  import opened Orders
  import opened Lpt
  import opened Sharding

  /** The mean of the two middle values in ascending order, which is the middle one of an odd number. */
  ghost predicate IsMiddle(m: real, values: seq<real>) {
    exists sorted: seq<real> :: Ascending(sorted, values) && 2.0 * m == sorted[(|sorted| - 1) / 2] + sorted[|sorted| / 2]
  }

  ghost predicate Ascending(sorted: seq<real>, values: seq<real>) {
    sorted != [] && multiset(sorted) == multiset(values) && forall i, j | 0 <= i < j < |sorted| :: sorted[i] <= sorted[j]
  }

  /** The documented weight of a file the map does not list. */
  ghost predicate IsFallback(x: real, weights: WeightMap, override: Option<real>)
    requires weights.Valid()
  {
    match override
    case Some(given) => x == given
    case None =>
      || (weights.keys == [] && x == 1.0)
      || exists m :: IsMiddle(m, weights.Values()) && x == if m == 0.0 then 1.0 else m
  }

  /** `w` gives the documented weight of every file. */
  ghost predicate Weighs(w: string -> real, weights: WeightMap, override: Option<real>)
    requires weights.Valid()
  {
    && (forall f | f in weights.at :: w(f) == weights.at[f])
    && (forall f | f !in weights.at :: IsFallback(w(f), weights, override))
  }

  lemma RealOrder()
    ensures TotalOrder(RealLe)
  {
  }

  /** There is one middle, and the median is it. */
  lemma MedianIsMiddle(values: seq<real>, m: real)
    requires values != []
    ensures IsMiddle(m, values) <==> m == ComputeMedian(values)
  {
    SortAscends(values);
    MedianOfSorted(values, Sort(values, RealLe));
    if IsMiddle(m, values) {
      var other: seq<real> :| Ascending(other, values) && 2.0 * m == other[(|other| - 1) / 2] + other[|other| / 2];
      AscendingUnique(values, other);
    }
  }

  lemma SortAscends(values: seq<real>)
    requires values != []
    ensures Ascending(Sort(values, RealLe), values) && |Sort(values, RealLe)| == |values|
  {
    RealOrder();
    SortPermutes(values, RealLe);
    SortSorts(values, RealLe);
    var sorted := Sort(values, RealLe);
    forall i, j | 0 <= i < j < |sorted| ensures sorted[i] <= sorted[j] {
      assert RealLe(sorted[i], sorted[j]);
    }
  }

  lemma AscendingUnique(values: seq<real>, other: seq<real>)
    requires values != [] && Ascending(other, values)
    ensures other == Sort(values, RealLe)
  {
    SortAscends(values);
    RealOrder();
    SortedUnique(Sort(values, RealLe), other, RealLe);
  }

  lemma MedianOfSorted(values: seq<real>, sorted: seq<real>)
    requires values != [] && sorted == Sort(values, RealLe) && |sorted| == |values|
    ensures 2.0 * ComputeMedian(values) == sorted[(|sorted| - 1) / 2] + sorted[|sorted| / 2]
  {
    var mid := |sorted| / 2;
    if |sorted| % 2 == 0 {
      assert (|sorted| - 1) / 2 == mid - 1;
    } else {
      assert (|sorted| - 1) / 2 == mid;
    }
  }

  lemma FallbackIsDocumented(x: real, weights: WeightMap, override: Option<real>)
    requires weights.Valid()
    ensures IsFallback(x, weights, override) <==> x == FallbackWeight(weights, override)
  {
    if override.None? && weights.keys != [] {
      var values := weights.Values();
      forall m ensures IsMiddle(m, values) <==> m == ComputeMedian(values) {
        MedianIsMiddle(values, m);
      }
      assert IsMiddle(ComputeMedian(values), values);
    } else if override.None? {
      assert weights.Values() == [];
      forall m ensures !IsMiddle(m, []) {
        NoMiddle(m);
      }
    }
  }

  lemma NoMiddle(m: real)
    ensures !IsMiddle(m, [])
  {
    forall sorted: seq<real> ensures !Ascending(sorted, []) {
      assert |sorted| == |multiset(sorted)|;
    }
  }

  /** Exactly one weighing is the documented one, and `partition` weighs by it. */
  lemma WeighsIffLooksUp(w: string -> real, weights: WeightMap, override: Option<real>)
    requires weights.Valid()
    ensures Weighs(w, weights, override) <==>
            forall f :: w(f) == EffectiveWeight(weights, FallbackWeight(weights, override), f)
  {
    forall f ensures IsFallback(w(f), weights, override) <==> w(f) == FallbackWeight(weights, override) {
      FallbackIsDocumented(w(f), weights, override);
    }
    if forall f :: w(f) == EffectiveWeight(weights, FallbackWeight(weights, override), f) {
      assert forall f | f in weights.at :: w(f) == weights.at[f];
    }
  }

  // ---------------------------------------------------------------- the laws

  function TotalWeight(w: string -> real, files: seq<string>): real {
    if files == [] then 0.0 else TotalWeight(w, files[..|files| - 1]) + w(files[|files| - 1])
  }

  lemma {:induction false} TotalIsLoad(w: string -> real, files: seq<string>, weights: WeightMap, fallback: real)
    requires forall f :: w(f) == EffectiveWeight(weights, fallback, f)
    ensures TotalWeight(w, files) == ShardLoad(files, weights, fallback)
  {
    if files != [] {
      var m := |files| - 1;
      TotalIsLoad(w, files[..m], weights, fallback);
      var jobs := JobsOf(files, weights, fallback);
      assert jobs[..m] == JobsOf(files[..m], weights, fallback);
    }
  }

  lemma AppendInOrder(shard: seq<Job>, j: Job)
    requires SortedBy(shard, JobLe) && forall i | 0 <= i < |shard| :: JobLe(shard[i], j)
    ensures SortedBy(shard + [j], JobLe)
  {
  }

  /** The greedy rule keeps the order of the jobs inside every shard. */
  lemma {:induction false} GreedyKeepsOrder(jobs: seq<Job>, n: nat, s: nat)
    requires n > 0 && s < n && SortedBy(jobs, JobLe)
    ensures SortedBy(Greedy(jobs, n)[s], JobLe)
  {
    if jobs != [] {
      var m := |jobs| - 1;
      var before := Greedy(jobs[..m], n);
      GreedyKeepsOrder(jobs[..m], n, s);
      GreedyCovers(jobs[..m], n);
      ShardJobsAreJobs(jobs[..m], before, s);
      forall i | 0 <= i < |before[s]| ensures JobLe(before[s][i], jobs[m]) {
        EarlierIsHeavier(jobs, before[s][i]);
      }
      AppendInOrder(before[s], jobs[m]);
    }
  }

  lemma EarlierIsHeavier(jobs: seq<Job>, j: Job)
    requires SortedBy(jobs, JobLe) && jobs != [] && j in jobs[..|jobs| - 1]
    ensures JobLe(j, jobs[|jobs| - 1])
  {
    var p :| 0 <= p < |jobs| - 1 && jobs[p] == j;
  }

  lemma LoadWithin(files: seq<string>, weights: WeightMap, n: int, override: Option<real>, rival: seq<seq<string>>,
                   cap: real, s: nat)
    requires LoadedWeights(weights) && Accepted(n, override)
    requires |rival| == n && multiset(Flatten(rival)) == multiset(files) && s < n
    requires forall t | 0 <= t < n :: ShardLoad(rival[t], weights, FallbackWeight(weights, override)) <= cap
    ensures var r := PartitionSpec(files, weights, n, override);
            && r.Ok? && |r.value| == n
            && WithinFourThirds(n, ShardLoad(r.value[s], weights, FallbackWeight(weights, override)), cap)
  {
    var fallback := FallbackWeight(weights, override);
    var jobs, shards := Behind(files, weights, n, override);
    var opponent := AllJobs(rival, weights, fallback);
    FlattenMap(JobFor(weights, fallback), rival, opponent);
    MapPermutes(JobFor(weights, fallback), Flatten(rival), files);
    forall t | 0 <= t < n ensures Load(opponent[t]) <= cap {
      assert ShardLoad(rival[t], weights, fallback) <= cap;
    }
    var bound := FourThirdsExists(n, cap);
    GreedyWithinFourThirds(jobs, n, opponent, cap, bound);
    BelowBound(n, Load(shards[s]), cap, bound);
  }

  /** The header's promise in the files' own weights: against every rival assignment whose shards weigh at most
      `cap`, 3n times any shard is at most (4n - 1) times `cap`. */
  lemma WithinFourThirdsByWeight(files: seq<string>, weights: WeightMap, n: int, override: Option<real>, w: string -> real,
                                 rival: seq<seq<string>>, cap: real, s: nat)
    requires LoadedWeights(weights) && Accepted(n, override) && Weighs(w, weights, override)
    requires |rival| == n && multiset(Flatten(rival)) == multiset(files) && s < n
    requires forall t | 0 <= t < n :: TotalWeight(w, rival[t]) <= cap
    ensures var r := PartitionSpec(files, weights, n, override);
            && r.Ok? && |r.value| == n
            && WithinFourThirds(n, TotalWeight(w, r.value[s]), cap)
  {
    var fallback := FallbackWeight(weights, override);
    WeighsIffLooksUp(w, weights, override);
    forall t | 0 <= t < n ensures ShardLoad(rival[t], weights, fallback) <= cap {
      TotalIsLoad(w, rival[t], weights, fallback);
    }
    LoadWithin(files, weights, n, override, rival, cap, s);
    var shard := PartitionSpec(files, weights, n, override).value[s];
    TotalIsLoad(w, shard, weights, fallback);
  }

  /** A shard outweighs any other by at most the file it received last. */
  lemma SpreadByWeight(files: seq<string>, weights: WeightMap, n: int, override: Option<real>, w: string -> real, s: nat, t: nat)
    requires LoadedWeights(weights) && Accepted(n, override) && Weighs(w, weights, override) && s < n && t < n
    ensures var r := PartitionSpec(files, weights, n, override);
            && r.Ok? && |r.value| == n
            && (r.value[s] != [] ==>
                  TotalWeight(w, r.value[s]) - TotalWeight(w, r.value[t]) <= w(r.value[s][|r.value[s]| - 1]))
  {
    var fallback := FallbackWeight(weights, override);
    WeighsIffLooksUp(w, weights, override);
    PartitionSpread(files, weights, n, override, s, t);
    var r := PartitionSpec(files, weights, n, override);
    TotalIsLoad(w, r.value[s], weights, fallback);
    TotalIsLoad(w, r.value[t], weights, fallback);
  }

  /** Each shard lists its files heaviest first, and files of one weight by path. */
  lemma HeaviestFirst(files: seq<string>, weights: WeightMap, n: int, override: Option<real>, w: string -> real,
                      s: nat, i: nat, j: nat)
    requires LoadedWeights(weights) && Accepted(n, override) && Weighs(w, weights, override) && s < n
    ensures var r := PartitionSpec(files, weights, n, override);
            && r.Ok? && |r.value| == n
            && (i < j < |r.value[s]| ==>
                  var a, b := r.value[s][i], r.value[s][j];
                  w(a) > w(b) || (w(a) == w(b) && StringLe(a, b)))
  {
    var fallback := FallbackWeight(weights, override);
    WeighsIffLooksUp(w, weights, override);
    var jobs, shards := Behind(files, weights, n, override);
    GreedyKeepsOrder(jobs, n, s);
    if i < j < |shards[s]| {
      assert JobLe(shards[s][i], shards[s][j]);
      assert JobsOf(AllPaths(shards)[s], weights, fallback)[i] == shards[s][i];
      assert JobsOf(AllPaths(shards)[s], weights, fallback)[j] == shards[s][j];
    }
  }

  /** Exactly which calls are refused, and why: a shard count that is not positive, or a negative fallback for
      a list that is not empty. */
  lemma RefusedIff(files: seq<string>, weights: WeightMap, n: int, override: Option<real>)
    requires weights.Valid()
    ensures var r := PartitionSpec(files, weights, n, override);
            && (r == Err(BadShardCount(n)) <==> n <= 0)
            && (r.Err? && r.error.BadFallback? <==> n > 0 && files != [] && override.Some? && override.value < 0.0)
            && (n > 0 && files == [] ==> r == Ok(seq(n, _ => [])))
  {
  }
}
