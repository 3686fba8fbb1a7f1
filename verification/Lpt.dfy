/** Longest-processing-time-first bin packing on values: the greedy rule of
    `scripts/sharding.ts` and the bound its header promises.

    A shard is the sequence of jobs placed on it, in placement order. */
module Lpt {
  import opened Sequences
  import opened Orders

  datatype Job = Job(path: string, weight: real)

  function WeightOf(j: Job): real {
    j.weight
  }

  /** Heaviest first, then path ascending. */
  predicate JobLe(a: Job, b: Job) {
    if a.weight != b.weight then a.weight > b.weight else StringLe(a.path, b.path)
  }

  lemma JobOrder()
    ensures TotalOrder(JobLe)
  {
    StringOrder();
    forall a, b, c | JobLe(a, b) && JobLe(b, c) ensures JobLe(a, c) {
      if a.weight == b.weight == c.weight {
        assert StringLe(a.path, b.path) && StringLe(b.path, c.path);
      }
    }
    forall a, b | JobLe(a, b) && JobLe(b, a) ensures a == b {
      assert StringLe(a.path, b.path) && StringLe(b.path, a.path);
    }
    forall a, b ensures JobLe(a, b) || JobLe(b, a) {
      assert StringLe(a.path, b.path) || StringLe(b.path, a.path);
    }
  }

  function Sum(f: Job -> real, xs: seq<Job>): real {
    if xs == [] then 0.0 else Sum(f, xs[..|xs| - 1]) + f(xs[|xs| - 1])
  }

  function Load(shard: seq<Job>): real {
    Sum(WeightOf, shard)
  }

  ghost predicate NonNegative(xs: seq<Job>) {
    forall j | j in xs :: j.weight >= 0.0
  }

  /** The first index holding the least of `totals[..i]`. */
  function ArgMin(totals: seq<real>, i: nat): (k: nat)
    requires 0 < i <= |totals|
    ensures k < i
    ensures forall j | 0 <= j < i :: totals[k] <= totals[j]
    ensures forall j | 0 <= j < k :: totals[k] < totals[j]
  {
    if i == 1 then 0
    else
      var k := ArgMin(totals, i - 1);
      if totals[i - 1] < totals[k] then i - 1 else k
  }

  function Loads(shards: seq<seq<Job>>): (ls: seq<real>)
    ensures |ls| == |shards|
  {
    seq(|shards|, s requires 0 <= s < |shards| => Load(shards[s]))
  }

  /** Place the jobs in the order given, each on the first least loaded shard. */
  function Greedy(jobs: seq<Job>, n: nat): (shards: seq<seq<Job>>)
    requires n > 0
    ensures |shards| == n
  {
    if jobs == [] then seq(n, _ => [])
    else
      var before := Greedy(jobs[..|jobs| - 1], n);
      var k := ArgMin(Loads(before), n);
      before[k := before[k] + [jobs[|jobs| - 1]]]
  }

  // ---------------------------------------------------------------- sums

  lemma {:induction false} SumConcat(f: Job -> real, xs: seq<Job>, ys: seq<Job>)
    ensures Sum(f, xs + ys) == Sum(f, xs) + Sum(f, ys)
  {
    if ys == [] {
      assert xs + ys == xs;
    } else {
      var front := ys[..|ys| - 1];
      assert (xs + ys)[..|xs + ys| - 1] == xs + front;
      SumConcat(f, xs, front);
    }
  }

  lemma SumPull(f: Job -> real, xs: seq<Job>, i: nat)
    requires i < |xs|
    ensures Sum(f, xs) == Sum(f, xs[..i] + xs[i + 1..]) + f(xs[i])
  {
    SumConcat(f, xs[..i], xs[i + 1..]);
    SumConcat(f, xs[..i + 1], xs[i + 1..]);
    assert xs == xs[..i + 1] + xs[i + 1..];
    assert xs[..i + 1][..i] == xs[..i];
  }

  /** A sum does not depend on the order of its terms. */
  lemma {:induction false} SumPermutation(f: Job -> real, xs: seq<Job>, ys: seq<Job>)
    requires multiset(xs) == multiset(ys)
    ensures Sum(f, xs) == Sum(f, ys)
  {
    assert |xs| == |multiset(xs)| == |multiset(ys)| == |ys|;
    if xs != [] {
      var last, front := xs[|xs| - 1], xs[..|xs| - 1];
      FrontAndLast(xs);
      var rest, i := Pull(ys, last);
      CancelOne(multiset(front), multiset(rest), last);
      SumPermutation(f, front, rest);
      SumPull(f, ys, i);
    }
  }

  lemma {:induction false} SumNonNegative(xs: seq<Job>)
    requires NonNegative(xs)
    ensures Load(xs) >= 0.0
    ensures forall j | j in xs :: j.weight <= Load(xs)
  {
    if xs != [] {
      SumNonNegative(xs[..|xs| - 1]);
      assert xs == xs[..|xs| - 1] + [xs[|xs| - 1]];
    }
  }

  /** `n` times `x`, as a sum. */
  function Times(n: nat, x: real): real {
    if n == 0 then 0.0 else Times(n - 1, x) + x
  }

  lemma {:induction false} TimesIsProduct(n: nat, x: real)
    ensures Times(n, x) == n as real * x
  {
    if n > 0 {
      TimesIsProduct(n - 1, x);
      assert n as real == (n - 1) as real + 1.0;
      assert ((n - 1) as real + 1.0) * x == (n - 1) as real * x + x;
    }
  }

  lemma {:induction false} TimesMonotone(n: nat, x: real, y: real)
    requires x <= y
    ensures Times(n, x) <= Times(n, y)
  {
    if n > 0 {
      TimesMonotone(n - 1, x, y);
    }
  }

  lemma {:induction false} TimesAdds(n: nat, x: real, y: real)
    ensures Times(n, x + y) == Times(n, x) + Times(n, y)
  {
    if n > 0 {
      TimesAdds(n - 1, x, y);
    }
  }

  /** Averaging: bounds on every shard bound the sum over all shards. */
  lemma {:induction false} FlattenUpper(f: Job -> real, shards: seq<seq<Job>>, hi: real)
    requires forall s | 0 <= s < |shards| :: Sum(f, shards[s]) <= hi
    ensures Sum(f, Flatten(shards)) <= Times(|shards|, hi)
  {
    if shards != [] {
      var m := |shards| - 1;
      FlattenUpper(f, shards[..m], hi);
      SumConcat(f, Flatten(shards[..m]), shards[m]);
    }
  }

  lemma {:induction false} FlattenLower(f: Job -> real, shards: seq<seq<Job>>, lo: real)
    requires forall s | 0 <= s < |shards| :: lo <= Sum(f, shards[s])
    ensures Times(|shards|, lo) <= Sum(f, Flatten(shards))
  {
    if shards != [] {
      var m := |shards| - 1;
      FlattenLower(f, shards[..m], lo);
      SumConcat(f, Flatten(shards[..m]), shards[m]);
    }
  }

  // ---------------------------------------------------------------- greedy placement

  /** Every job lands on exactly one shard. */
  lemma {:induction false} GreedyCovers(jobs: seq<Job>, n: nat)
    requires n > 0
    ensures multiset(Flatten(Greedy(jobs, n))) == multiset(jobs)
  {
    if jobs == [] {
      FlattenEmpties(Greedy(jobs, n));
    } else {
      var m := |jobs| - 1;
      GreedyCovers(jobs[..m], n);
      var before := Greedy(jobs[..m], n);
      FlattenUpdate(before, ArgMin(Loads(before), n), jobs[m]);
      FrontAndLast(jobs);
    }
  }

  lemma LoadAppend(shard: seq<Job>, j: Job)
    ensures Load(shard + [j]) == Load(shard) + j.weight
  {
    assert (shard + [j])[..|shard|] == shard;
  }

  lemma LoadsUpdate(shards: seq<seq<Job>>, k: nat, j: Job, total: real)
    requires k < |shards| && total == Loads(shards)[k] + j.weight
    ensures Loads(shards[k := shards[k] + [j]]) == Loads(shards)[k := total]
  {
    LoadAppend(shards[k], j);
    var after := shards[k := shards[k] + [j]];
    assert Load(after[k]) == total;
  }

  /** One placement: who receives the job, and that it was least loaded. */
  lemma GreedyStep(jobs: seq<Job>, n: nat) returns (before: seq<seq<Job>>, k: nat)
    requires n > 0 && jobs != []
    ensures before == Greedy(jobs[..|jobs| - 1], n) && k < n
    ensures Greedy(jobs, n) == before[k := before[k] + [jobs[|jobs| - 1]]]
    ensures Load(Greedy(jobs, n)[k]) == Load(before[k]) + jobs[|jobs| - 1].weight
    ensures forall s | 0 <= s < n :: Load(before[k]) <= Load(before[s])
  {
    before := Greedy(jobs[..|jobs| - 1], n);
    k := ArgMin(Loads(before), n);
    LoadAppend(before[k], jobs[|jobs| - 1]);
    forall s | 0 <= s < n ensures Load(before[k]) <= Load(before[s]) {
      assert Loads(before)[k] <= Loads(before)[s];
    }
  }

  // ---------------------------------------------------------------- credits

  /** With a threshold `t` no heavier than any job, a job that cannot share a shard of
      capacity `cap` with another one is worth two credits, every other job one. */
  function Credit(t: real, cap: real): Job -> real {
    (j: Job) => if j.weight + t > cap then 2.0 else 1.0
  }

  ghost predicate AllAtLeast(xs: seq<Job>, t: real) {
    forall j | j in xs :: j.weight >= t
  }

  ghost predicate CreditInvariant(load: real, credit: real, t: real, cap: real) {
    || (credit == 0.0 && load == 0.0)
    || (credit == 1.0 && t <= load && load + t <= cap)
    || (credit == 2.0 && (2.0 * t <= load || load + t > cap) && load >= t)
    || (credit >= 3.0 && load > cap)
  }

  lemma {:induction false} CreditsTrackLoad(xs: seq<Job>, t: real, cap: real)
    requires 0.0 <= t <= cap < 3.0 * t && AllAtLeast(xs, t)
    ensures CreditInvariant(Load(xs), Sum(Credit(t, cap), xs), t, cap)
  {
    if xs != [] {
      var m := |xs| - 1;
      assert AllAtLeast(xs[..m], t);
      CreditsTrackLoad(xs[..m], t, cap);
      assert xs[m] in xs;
      assert Load(xs) == Load(xs[..m]) + xs[m].weight;
      assert Sum(Credit(t, cap), xs) == Sum(Credit(t, cap), xs[..m]) + Credit(t, cap)(xs[m]);
    }
  }

  /** A rival within `cap` has at most two credits a shard. */
  lemma RivalCredits(jobs: seq<Job>, rival: seq<seq<Job>>, t: real, cap: real)
    requires 0.0 <= t <= cap < 3.0 * t && AllAtLeast(jobs, t)
    requires multiset(Flatten(rival)) == multiset(jobs)
    requires forall s | 0 <= s < |rival| :: Load(rival[s]) <= cap
    ensures Sum(Credit(t, cap), jobs) <= Times(|rival|, 2.0)
  {
    var f := Credit(t, cap);
    forall s | 0 <= s < |rival| ensures Sum(f, rival[s]) <= 2.0 {
      ShardJobsAreJobs(jobs, rival, s);
      CreditsTrackLoad(rival[s], t, cap);
    }
    FlattenUpper(f, rival, 2.0);
    SumPermutation(f, Flatten(rival), jobs);
  }

  /** Shards without room for one more job have at least two credits each. */
  lemma FullCredits(jobs: seq<Job>, shards: seq<seq<Job>>, t: real, cap: real)
    requires 0.0 <= t <= cap < 3.0 * t && AllAtLeast(jobs, t)
    requires multiset(Flatten(shards)) == multiset(jobs)
    requires forall s | 0 <= s < |shards| :: Load(shards[s]) + t > cap
    ensures Sum(Credit(t, cap), jobs) >= Times(|shards|, 2.0)
  {
    var f := Credit(t, cap);
    forall s | 0 <= s < |shards| ensures Sum(f, shards[s]) >= 2.0 {
      ShardJobsAreJobs(jobs, shards, s);
      CreditsTrackLoad(shards[s], t, cap);
    }
    FlattenLower(f, shards, 2.0);
    SumPermutation(f, Flatten(shards), jobs);
  }

  /** When every job weighs more than a third of a rival's makespan `cap`, the least
      loaded greedy shard still has room for the last job under that makespan. */
  lemma LargeJobFits(jobs: seq<Job>, n: nat, rival: seq<seq<Job>>, cap: real, before: seq<seq<Job>>, k: nat)
    requires n > 0 && jobs != [] && |rival| == |before| == n && k < n
    requires AllAtLeast(jobs, jobs[|jobs| - 1].weight)
    requires 0.0 <= jobs[|jobs| - 1].weight <= cap < 3.0 * jobs[|jobs| - 1].weight
    requires multiset(Flatten(rival)) == multiset(jobs)
    requires multiset(Flatten(before)) == multiset(jobs[..|jobs| - 1])
    requires forall s | 0 <= s < n :: Load(rival[s]) <= cap
    requires forall s | 0 <= s < n :: Load(before[k]) <= Load(before[s])
    ensures Load(before[k]) + jobs[|jobs| - 1].weight <= cap
  {
    var m := |jobs| - 1;
    RivalCredits(jobs, rival, jobs[m].weight, cap);
    if Load(before[k]) + jobs[m].weight > cap {
      FullCredits(jobs[..m], before, jobs[m].weight, cap);
      assert false;
    }
  }

  lemma ShardJobsAreJobs(jobs: seq<Job>, shards: seq<seq<Job>>, s: nat)
    requires s < |shards| && multiset(Flatten(shards)) == multiset(jobs)
    ensures forall j | j in shards[s] :: j in jobs
  {
    FlattenContains(shards, s);
    forall j | j in shards[s] ensures j in jobs {
      assert j in multiset(Flatten(shards));
    }
  }

  // ---------------------------------------------------------------- the 4/3 bound

  lemma DropJob(shard: seq<Job>, last: Job) returns (rest: seq<Job>)
    requires last in multiset(shard) && NonNegative(shard)
    ensures multiset(shard) == multiset(rest) + multiset{last}
    ensures Load(rest) <= Load(shard) && last.weight <= Load(shard)
  {
    var i: nat;
    rest, i := Pull(shard, last);
    SumPull(WeightOf, shard, i);
    SumNonNegative(rest);
  }

  /** Taking one job out of a rival assignment leaves an assignment no heavier. */
  lemma RemoveFromRival(jobs: seq<Job>, rival: seq<seq<Job>>, cap: real) returns (smaller: seq<seq<Job>>)
    requires jobs != [] && NonNegative(jobs)
    requires multiset(Flatten(rival)) == multiset(jobs)
    requires forall s | 0 <= s < |rival| :: Load(rival[s]) <= cap
    ensures |smaller| == |rival|
    ensures multiset(Flatten(smaller)) == multiset(jobs[..|jobs| - 1])
    ensures forall s | 0 <= s < |smaller| :: Load(smaller[s]) <= cap
    ensures jobs[|jobs| - 1].weight <= cap
  {
    var m := |jobs| - 1;
    var last := jobs[m];
    FrontAndLast(jobs);
    assert last in multiset(Flatten(rival));
    var s, i := FlattenMember(rival, last);
    ShardJobsAreJobs(jobs, rival, s);
    var rest := DropJob(rival[s], last);
    smaller := rival[s := rest];
    FlattenReplace(rival, s, rest, multiset{last});
    CancelOne(multiset(Flatten(smaller)), multiset(jobs[..m]), last);
  }

  lemma AverageFits(jobs: seq<Job>, n: nat, rival: seq<seq<Job>>, cap: real, before: seq<seq<Job>>, k: nat)
    requires n > 0 && jobs != [] && |rival| == |before| == n && k < n
    requires multiset(Flatten(rival)) == multiset(jobs)
    requires multiset(Flatten(before)) == multiset(jobs[..|jobs| - 1])
    requires forall s | 0 <= s < n :: Load(rival[s]) <= cap
    requires forall s | 0 <= s < n :: Load(before[k]) <= Load(before[s])
    ensures Times(n, Load(before[k])) + jobs[|jobs| - 1].weight <= Times(n, cap)
  {
    var m := |jobs| - 1;
    FlattenUpper(WeightOf, rival, cap);
    FlattenLower(WeightOf, before, Load(before[k]));
    SumPermutation(WeightOf, Flatten(rival), jobs);
    SumPermutation(WeightOf, Flatten(before), jobs[..m]);
  }

  lemma {:induction false} TimesStrict(n: nat, x: real, y: real)
    requires n > 0 && x < y
    ensures Times(n, x) < Times(n, y)
  {
    if n > 1 {
      TimesStrict(n - 1, x, y);
    }
  }

  /** `bound` is (4/3 - 1/(3n)) times `cap`. */
  ghost predicate FourThirds(n: nat, cap: real, bound: real) {
    3.0 * Times(n, bound) == 4.0 * Times(n, cap) - cap
  }

  lemma FourThirdsExists(n: nat, cap: real) returns (bound: real)
    requires n > 0
    ensures FourThirds(n, cap, bound)
  {
    var total := 4.0 * Times(n, cap) - cap;
    var third := total / 3.0;
    bound := third / n as real;
    assert n as real * bound == third;
    TimesIsProduct(n, bound);
  }

  lemma CapWithin(n: nat, cap: real, bound: real)
    requires n > 0 && 0.0 <= cap && FourThirds(n, cap, bound)
    ensures cap <= bound
  {
    TimesMonotone(n - 1, 0.0, cap);
    TimesIsProduct(n - 1, 0.0);
    if bound < cap {
      TimesStrict(n, bound, cap);
      assert false;
    }
  }

  lemma ThreeTimes(n: nat, w: real, cap: real)
    requires 3.0 * w <= cap
    ensures 3.0 * Times(n, w) <= Times(n, cap)
  {
    var w2 := w + w;
    var w3 := w2 + w;
    TimesAdds(n, w, w);
    TimesAdds(n, w2, w);
    TimesMonotone(n, w3, cap);
  }

  lemma SmallStep(n: nat, load: real, w: real, cap: real)
    requires n > 0 && 3.0 * w <= cap
    requires Times(n, load) + w <= Times(n, cap)
    ensures 3.0 * Times(n, load + w) <= 4.0 * Times(n, cap) - cap
  {
    ThreeTimes(n - 1, w, cap);
    TimesAdds(n, load, w);
  }

  lemma FourThirdsStep(n: nat, load: real, w: real, cap: real, bound: real)
    requires n > 0 && 3.0 * w <= cap && FourThirds(n, cap, bound)
    requires Times(n, load) + w <= Times(n, cap)
    ensures load + w <= bound
  {
    SmallStep(n, load, w, cap);
    if bound < load + w {
      TimesStrict(n, bound, load + w);
      assert false;
    }
  }

  /** Placing `w` on the least loaded shard either fits under the rival's makespan, or
      `w` is at most a third of it and averaging over the shards applies. */
  lemma ReceiverHasRoom(jobs: seq<Job>, n: nat, rival: seq<seq<Job>>, cap: real, before: seq<seq<Job>>, k: nat)
    requires n > 0 && jobs != [] && |rival| == |before| == n && k < n
    requires SortedBy(jobs, JobLe) && NonNegative(jobs) && jobs[|jobs| - 1].weight <= cap
    requires multiset(Flatten(rival)) == multiset(jobs)
    requires multiset(Flatten(before)) == multiset(jobs[..|jobs| - 1])
    requires forall s | 0 <= s < n :: Load(rival[s]) <= cap
    requires forall s | 0 <= s < n :: Load(before[k]) <= Load(before[s])
    ensures Times(n, Load(before[k])) + jobs[|jobs| - 1].weight <= Times(n, cap)
    ensures Load(before[k]) + jobs[|jobs| - 1].weight <= cap || 3.0 * jobs[|jobs| - 1].weight <= cap
  {
    assert jobs[|jobs| - 1] in jobs;
    AverageFits(jobs, n, rival, cap, before, k);
    if 3.0 * jobs[|jobs| - 1].weight > cap {
      LightestLast(jobs);
      LargeJobFits(jobs, n, rival, cap, before, k);
    }
  }

  lemma LightestLast(jobs: seq<Job>)
    requires jobs != [] && SortedBy(jobs, JobLe)
    ensures AllAtLeast(jobs, jobs[|jobs| - 1].weight)
  {
    forall j | j in jobs ensures j.weight >= jobs[|jobs| - 1].weight {
      var i :| 0 <= i < |jobs| && jobs[i] == j;
      if i < |jobs| - 1 { assert JobLe(jobs[i], jobs[|jobs| - 1]); }
    }
  }

  /** `load` is at most (4/3 - 1/(3n)) times `cap`: 3n * load <= (4n - 1) * cap. */
  ghost predicate WithinFourThirds(n: nat, load: real, cap: real) {
    3.0 * Times(n, load) <= 4.0 * Times(n, cap) - cap
  }

  lemma WithinFourThirdsProduct(n: nat, load: real, cap: real)
    ensures WithinFourThirds(n, load, cap) <==> 3.0 * (n as real * load) <= 4.0 * (n as real * cap) - cap
  {
    TimesIsProduct(n, load);
    TimesIsProduct(n, cap);
  }

  lemma BelowBound(n: nat, load: real, cap: real, bound: real)
    requires FourThirds(n, cap, bound) && load <= bound
    ensures WithinFourThirds(n, load, cap)
  {
    TimesMonotone(n, load, bound);
  }

  lemma RoomWithinBound(n: nat, load: real, w: real, cap: real, bound: real)
    requires n > 0 && FourThirds(n, cap, bound) && 0.0 <= cap
    requires load + w <= cap || 3.0 * w <= cap
    requires Times(n, load) + w <= Times(n, cap)
    ensures load + w <= bound
  {
    if load + w <= cap {
      CapWithin(n, cap, bound);
    } else {
      FourThirdsStep(n, load, w, cap, bound);
    }
  }

  ghost predicate AllWithin(shards: seq<seq<Job>>, bound: real) {
    forall s | 0 <= s < |shards| :: Load(shards[s]) <= bound
  }

  lemma AppendWithin(shards: seq<seq<Job>>, k: nat, j: Job, bound: real)
    requires k < |shards| && AllWithin(shards, bound) && Load(shards[k]) + j.weight <= bound
    ensures AllWithin(shards[k := shards[k] + [j]], bound)
  {
    LoadAppend(shards[k], j);
  }

  lemma PlacementWithin(jobs: seq<Job>, n: nat, rival: seq<seq<Job>>, cap: real, bound: real)
    requires n > 0 && jobs != [] && |rival| == n
    requires SortedBy(jobs, JobLe) && NonNegative(jobs) && jobs[|jobs| - 1].weight <= cap
    requires multiset(Flatten(rival)) == multiset(jobs)
    requires FourThirds(n, cap, bound) && 0.0 <= cap
    requires forall s | 0 <= s < n :: Load(rival[s]) <= cap
    requires AllWithin(Greedy(jobs[..|jobs| - 1], n), bound)
    ensures AllWithin(Greedy(jobs, n), bound)
  {
    var m := |jobs| - 1;
    var before, k := GreedyStep(jobs, n);
    GreedyCovers(jobs[..m], n);
    ReceiverHasRoom(jobs, n, rival, cap, before, k);
    RoomWithinBound(n, Load(before[k]), jobs[m].weight, cap, bound);
    AppendWithin(before, k, jobs[m], bound);
  }

  /** Graham's bound: on jobs taken heaviest first, no greedy shard exceeds
      (4/3 - 1/(3n)) times the heaviest shard of any rival assignment. */
  lemma {:induction false} GreedyWithinFourThirds(jobs: seq<Job>, n: nat, rival: seq<seq<Job>>, cap: real, bound: real)
    requires n > 0 && |rival| == n && FourThirds(n, cap, bound)
    requires SortedBy(jobs, JobLe) && NonNegative(jobs)
    requires multiset(Flatten(rival)) == multiset(jobs)
    requires forall s | 0 <= s < n :: Load(rival[s]) <= cap
    ensures AllWithin(Greedy(jobs, n), bound)
  {
    ShardJobsAreJobs(jobs, rival, 0);
    SumNonNegative(rival[0]);
    if jobs == [] {
      CapWithin(n, cap, bound);
    } else {
      var smaller := RemoveFromRival(jobs, rival, cap);
      GreedyWithinFourThirds(jobs[..|jobs| - 1], n, smaller, cap, bound);
      PlacementWithin(jobs, n, rival, cap, bound);
    }
  }

  // ---------------------------------------------------------------- spread

  /** A shard exceeds any other by at most the weight of the job it received last. */
  lemma {:induction false} SpreadWithinLastJob(jobs: seq<Job>, n: nat, s: nat, t: nat)
    requires n > 0 && s < n && t < n && NonNegative(jobs)
    requires Greedy(jobs, n)[s] != []
    ensures var shards := Greedy(jobs, n);
            Load(shards[s]) - Load(shards[t]) <= shards[s][|shards[s]| - 1].weight
  {
    var m := |jobs| - 1;
    var before, k := GreedyStep(jobs, n);
    assert jobs[m] in jobs;
    if s == k {
      if t != k {
        assert Load(before[k]) <= Load(before[t]);
      }
    } else {
      SpreadWithinLastJob(jobs[..m], n, s, t);
    }
  }

  // ---------------------------------------------------------------- equal weights

  /** The elements of `xs` whose position is congruent to `s` modulo `n`. */
  function Stride<T>(xs: seq<T>, n: nat, s: nat): seq<T>
    requires n > 0
  {
    if xs == [] then []
    else
      var m := |xs| - 1;
      Stride(xs[..m], n, s) + if m % n == s then [xs[m]] else []
  }

  lemma DivModStep(m: nat, n: nat)
    requires n > 0
    ensures (m + 1) / n == m / n + (if m % n == n - 1 then 1 else 0)
    ensures (m + 1) % n == if m % n == n - 1 then 0 else m % n + 1
  {
    var q, r := m / n, m % n;
    assert m == q * n + r;
    if r == n - 1 {
      assert m + 1 == (q + 1) * n;
      QuotientUnique(m + 1, n, q + 1, 0);
    } else {
      QuotientUnique(m + 1, n, q, r + 1);
    }
  }

  lemma AtLeastOnce(a: int, n: nat)
    requires a >= 1
    ensures a * n >= n
  {
    assert a * n == (a - 1) * n + n;
  }

  lemma QuotientUnique(x: nat, n: nat, q: nat, r: nat)
    requires n > 0 && r < n && x == q * n + r
    ensures x / n == q && x % n == r
  {
    var q', r' := x / n, x % n;
    assert q' * n + r' == q * n + r;
    assert (q' - q) * n == r - r';
    if q' > q { AtLeastOnce(q' - q, n); }
    if q' < q { AtLeastOnce(q - q', n); }
  }

  /** Round-robin shard sizes differ by at most one. */
  lemma {:induction false} StrideSize<T>(xs: seq<T>, n: nat, s: nat)
    requires n > 0 && s < n
    ensures |Stride(xs, n, s)| == |xs| / n + (if s < |xs| % n then 1 else 0)
  {
    if xs != [] {
      var m := |xs| - 1;
      StrideSize(xs[..m], n, s);
      DivModStep(m, n);
    } else {
      QuotientUnique(0, n, 0, 0);
    }
  }

  lemma {:induction false} StrideLoad(jobs: seq<Job>, n: nat, s: nat, c: real)
    requires n > 0 && forall j | j in jobs :: j.weight == c
    ensures Load(Stride(jobs, n, s)) == Times(|Stride(jobs, n, s)|, c)
  {
    if jobs != [] {
      var m := |jobs| - 1;
      StrideLoad(jobs[..m], n, s, c);
      assert jobs[m] in jobs;
      var before := Stride(jobs[..m], n, s);
      if m % n == s {
        LoadAppend(before, jobs[m]);
      } else {
        assert Stride(jobs, n, s) == before;
      }
    }
  }

  lemma EqualLoads(jobs: seq<Job>, n: nat, c: real, s: nat)
    requires n > 0 && s < n && forall j | j in jobs :: j.weight == c
    ensures Load(Stride(jobs, n, s)) == Times(|jobs| / n + (if s < |jobs| % n then 1 else 0), c)
  {
    StrideSize(jobs, n, s);
    StrideLoad(jobs, n, s, c);
  }

  /** Jobs of one positive weight are dealt out round-robin. */
  lemma {:induction false} EqualWeightsRoundRobin(jobs: seq<Job>, n: nat, c: real)
    requires n > 0 && c > 0.0 && forall j | j in jobs :: j.weight == c
    ensures forall s | 0 <= s < n :: Greedy(jobs, n)[s] == Stride(jobs, n, s)
  {
    if jobs != [] {
      var m := |jobs| - 1;
      EqualWeightsRoundRobin(jobs[..m], n, c);
      var before := Greedy(jobs[..m], n);
      NextInTurn(jobs[..m], n, c);
      var k := ArgMin(Loads(before), n);
      assert k == m % n;
    }
  }

  lemma NextInTurn(jobs: seq<Job>, n: nat, c: real)
    requires n > 0 && c > 0.0 && forall j | j in jobs :: j.weight == c
    requires forall s | 0 <= s < n :: Greedy(jobs, n)[s] == Stride(jobs, n, s)
    ensures ArgMin(Loads(Greedy(jobs, n)), n) == |jobs| % n
  {
    var loads := Loads(Greedy(jobs, n));
    forall s | 0 <= s < n
      ensures loads[s] == Times(|jobs| / n, c) + if s < |jobs| % n then c else 0.0
    {
      EqualLoads(jobs, n, c, s);
    }
    FirstLow(loads, |jobs| % n, Times(|jobs| / n, c), c);
  }

  lemma FirstLow(loads: seq<real>, turn: nat, low: real, c: real)
    requires turn < |loads| && c > 0.0
    requires forall s | 0 <= s < |loads| :: loads[s] == low + if s < turn then c else 0.0
    ensures ArgMin(loads, |loads|) == turn
  {
    assert loads[ArgMin(loads, |loads|)] <= loads[turn];
  }

  /** Weightless jobs all pile onto the first shard. */
  lemma {:induction false} ZeroWeightsCollapse(jobs: seq<Job>, n: nat)
    requires n > 0 && forall j | j in jobs :: j.weight == 0.0
    ensures Greedy(jobs, n)[0] == jobs
    ensures forall s | 0 <= s < n :: Load(Greedy(jobs, n)[s]) == 0.0
  {
    if jobs != [] {
      var m := |jobs| - 1;
      assert jobs == jobs[..m] + [jobs[m]];
      ZeroWeightsCollapse(jobs[..m], n);
      var before := Greedy(jobs[..m], n);
      var k := ArgMin(Loads(before), n);
      assert Loads(before)[0] == 0.0 == Loads(before)[k];
      LoadAppend(before[k], jobs[m]);
    }
  }
}
