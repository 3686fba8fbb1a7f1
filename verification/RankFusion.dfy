/** `GBrainStack.search` and the reranker's clean-up in `bench/gbrain_stack.py`. */
module RankFusion {
  import opened Results
  import opened Sequences
  import opened Orders
  import opened OrderedMaps

  /** Documents are numbered 0 to n-1; an arm ranks all of them. */
  ghost predicate Ranking(r: seq<int>, n: nat) {
    |r| == n && Distinct(r) && forall x | x in r :: 0 <= x < n
  }

  /** Position of `x`, or the length when absent. */
  function Place(r: seq<int>, x: int): (p: nat)
    ensures p <= |r| && (p < |r| ==> r[p] == x) && (x in r ==> p < |r|)
    ensures forall i | 0 <= i < p :: r[i] != x
  {
    if r == [] || r[0] == x then 0 else 1 + Place(r[1..], x)
  }

  function Reciprocal(rrfK: nat, rank: nat): real {
    1.0 / (rrfK + rank + 1) as real
  }

  function Score(dense: seq<int>, bm25: seq<int>, rrfK: nat, x: int): real {
    Reciprocal(rrfK, Place(dense, x)) + Reciprocal(rrfK, Place(bm25, x))
  }

  /** Higher score first. */
  function ByScore(dense: seq<int>, bm25: seq<int>, rrfK: nat): (int, int) -> bool {
    (a: int, b: int) => Score(dense, bm25, rrfK, a) >= Score(dense, bm25, rrfK, b)
  }

  /** The fused order: dense order, stably sorted by score. */
  function Fused(dense: seq<int>, bm25: seq<int>, rrfK: nat): seq<int> {
    Sort(dense, ByScore(dense, bm25, rrfK))
  }

  function Take<T>(xs: seq<T>, n: nat): seq<T> {
    if n <= |xs| then xs[..n] else xs
  }

  /** The valid positions of a reply, first mention wins. */
  function Mentioned(reply: seq<int>, n: nat): seq<int> {
    if reply == [] then []
    else
      var front, last := Mentioned(reply[..|reply| - 1], n), reply[|reply| - 1];
      if 0 <= last < n && last !in front then front + [last] else front
  }

  /** `seen` extended by the positions below `i` that it lacks. */
  function WithDropped(seen: seq<int>, i: nat): seq<int> {
    if i == 0 then seen
    else if i - 1 in seen then WithDropped(seen, i - 1)
    else WithDropped(seen, i - 1) + [i - 1]
  }

  /** `_llm_rerank`: a reply that is no list of integers leaves the candidates as they are. */
  function Rerank(candidates: seq<int>, topK: nat, reply: Option<seq<int>>): seq<int> {
    match reply
    case None => Take(candidates, topK)
    case Some(order) =>
      var clean := WithDropped(Mentioned(order, |candidates|), |candidates|);
      CleanIsRanking(order, |candidates|);
      var top := Take(clean, topK);
      seq(|top|, i requires 0 <= i < |top| =>
        assert top[i] == clean[i] && clean[i] in clean;
        candidates[top[i]])
  }

  function Max(a: nat, b: nat): nat {
    if a >= b then a else b
  }

  /** Whether to rerank, how many candidates to offer, and what the model answered. */
  datatype Reranker = Off | On(pool: nat, reply: Option<seq<int>>)

  function SearchSpec(dense: seq<int>, bm25: seq<int>, rrfK: nat, k: nat, reranker: Reranker): seq<int> {
    var fused := Fused(dense, bm25, rrfK);
    match reranker
    case Off => Take(fused, k)
    case On(pool, reply) => Rerank(Take(fused, Max(k, pool)), k, reply)
  }

  // ---------------------------------------------------------------- clean-up of a reply

  lemma {:induction false} MentionedShape(reply: seq<int>, n: nat)
    ensures var m := Mentioned(reply, n); Distinct(m) && forall x | x in m :: 0 <= x < n
  {
    if reply != [] {
      MentionedShape(reply[..|reply| - 1], n);
    }
  }

  lemma {:induction false} WithDroppedShape(seen: seq<int>, i: nat, n: nat)
    requires i <= n && Distinct(seen) && forall x | x in seen :: 0 <= x < n
    ensures var all := WithDropped(seen, i);
            && seen <= all && Distinct(all)
            && (forall x | x in all :: 0 <= x < n && (x in seen || x < i))
            && (forall x | 0 <= x < i :: x in all)
  {
    if i > 0 {
      WithDroppedShape(seen, i - 1, n);
    }
  }

  function Range(n: nat): set<int> {
    if n == 0 then {} else Range(n - 1) + {n - 1}
  }

  lemma {:induction false} RangeShape(n: nat)
    ensures |Range(n)| == n && forall x :: x in Range(n) <==> 0 <= x < n
  {
    if n > 0 {
      RangeShape(n - 1);
    }
  }

  lemma FullRange(r: seq<int>, n: nat)
    requires Distinct(r) && (forall x | x in r :: 0 <= x < n) && (forall x | 0 <= x < n :: x in r)
    ensures |r| == n
  {
    RangeShape(n);
    forall x ensures x in Elements(r) <==> x in Range(n) {
    }
    assert Elements(r) == Range(n);
    DistinctSize(r);
  }

  lemma {:induction false} DistinctSize(r: seq<int>)
    requires Distinct(r)
    ensures |Elements(r)| == |r|
  {
    if r != [] {
      var m := |r| - 1;
      DistinctSize(r[..m]);
      assert r == r[..m] + [r[m]];
      assert Elements(r) == Elements(r[..m]) + {r[m]};
    }
  }

  /** Whatever the model replies, the cleaned order ranks every candidate exactly once. */
  lemma CleanIsRanking(reply: seq<int>, n: nat)
    ensures Ranking(WithDropped(Mentioned(reply, n), n), n)
  {
    MentionedShape(reply, n);
    WithDroppedShape(Mentioned(reply, n), n, n);
    FullRange(WithDropped(Mentioned(reply, n), n), n);
  }

  // ---------------------------------------------------------------- the loops

  method CleanReply(order: seq<int>, n: nat) returns (clean: seq<int>)
    ensures clean == WithDropped(Mentioned(order, n), n)
  {
    var seen: set<int> := {};
    clean := [];
    for i := 0 to |order|
      invariant clean == Mentioned(order[..i], n)
      invariant seen == Elements(clean)
    {
      var x := order[i];
      assert order[..i + 1][..i] == order[..i];
      if 0 <= x < n && x !in seen {
        seen := seen + {x};
        clean := clean + [x];
      }
    }
    assert order[..|order|] == order;
    for x := 0 to n
      invariant clean == WithDropped(Mentioned(order, n), x)
      invariant seen == Elements(Mentioned(order, n))
    {
      if x !in seen {
        clean := clean + [x];
      }
    }
  }

  ghost predicate Accumulated(rrf: OrderedMap<int, real>, dense: seq<int>, bm25: seq<int>, rrfK: nat, j: nat) {
    && rrf.keys == dense && (forall x | x in dense :: x in rrf.at)
    && forall x | x in dense ::
         rrf.at[x] == Reciprocal(rrfK, Place(dense, x)) + if Place(bm25, x) < j then Reciprocal(rrfK, Place(bm25, x)) else 0.0
  }

  lemma PlaceOf(r: seq<int>, i: nat)
    requires Distinct(r) && i < |r|
    ensures Place(r, r[i]) == i
  {
  }

  /** After the dense arm: its documents, in its order, with its share of the score. */
  ghost predicate DenseDone(rrf: OrderedMap<int, real>, dense: seq<int>, rrfK: nat) {
    && rrf.keys == dense && (forall x | x in dense :: x in rrf.at)
    && forall x | x in dense :: rrf.at[x] == Reciprocal(rrfK, Place(dense, x))
  }

  method FuseDense(dense: seq<int>, rrfK: nat) returns (rrf: OrderedMap<int, real>)
    requires Distinct(dense)
    ensures DenseDone(rrf, dense, rrfK)
  {
    rrf := OrderedMap([], map[]);
    for rank := 0 to |dense|
      invariant rrf.keys == dense[..rank] && (forall x | x in rrf.at :: x in dense[..rank])
      invariant forall i | 0 <= i < rank :: dense[i] in rrf.at && rrf.at[dense[i]] == Reciprocal(rrfK, i)
    {
      var idx := dense[rank];
      assert dense[..rank + 1] == dense[..rank] + [idx];
      assert idx !in dense[..rank];
      var share := Reciprocal(rrfK, rank);
      var before := rrf.GetOr(idx, 0.0);
      rrf := rrf.Set(idx, before + share);
    }
    assert dense[..|dense|] == dense;
    forall x | x in dense ensures x in rrf.at && rrf.at[x] == Reciprocal(rrfK, Place(dense, x)) {
      assert dense[Place(dense, x)] == x;
    }
  }

  lemma AccumulateStep(rrf: OrderedMap<int, real>, dense: seq<int>, bm25: seq<int>, rrfK: nat, j: nat, total: real)
    requires Accumulated(rrf, dense, bm25, rrfK, j) && j < |bm25| && Distinct(bm25) && bm25[j] in dense
    requires bm25[j] in rrf.at && total == rrf.at[bm25[j]] + Reciprocal(rrfK, j)
    ensures Accumulated(rrf.Set(bm25[j], total), dense, bm25, rrfK, j + 1)
  {
    PlaceOf(bm25, j);
    forall x | x in dense ensures Place(bm25, x) == j <==> x == bm25[j] {
    }
  }

  method Fuse(dense: seq<int>, bm25: seq<int>, rrfK: nat, ghost n: nat) returns (rrf: OrderedMap<int, real>)
    requires Ranking(dense, n) && Ranking(bm25, n)
    ensures rrf.keys == dense && (forall x | x in dense :: x in rrf.at)
    ensures forall x | x in dense :: rrf.at[x] == Score(dense, bm25, rrfK, x)
  {
    rrf := FuseDense(dense, rrfK);
    for rank := 0 to |bm25|
      invariant Accumulated(rrf, dense, bm25, rrfK, rank)
    {
      var idx := bm25[rank];
      SameDocuments(dense, bm25, n, idx);
      var before := rrf.GetOr(idx, 0.0);
      var total := before + Reciprocal(rrfK, rank);
      AccumulateStep(rrf, dense, bm25, rrfK, rank, total);
      rrf := rrf.Set(idx, total);
    }
    forall x | x in dense ensures Place(bm25, x) < |bm25| {
      SameDocuments(bm25, dense, n, x);
    }
  }

  lemma SameDocuments(a: seq<int>, b: seq<int>, n: nat, x: int)
    requires Ranking(a, n) && Ranking(b, n) && x in b
    ensures x in a
  {
    RangeShape(n);
    DistinctSize(a);
    if x !in a {
      forall y | y in Elements(a) + {x} ensures y in Range(n) {
      }
      SubsetSize(Elements(a) + {x}, Range(n));
    }
  }

  method RerankCandidates(candidates: seq<int>, topK: nat, reply: Option<seq<int>>) returns (r: seq<int>)
    ensures r == Rerank(candidates, topK, reply)
  {
    if reply.None? {
      return Take(candidates, topK);
    }
    var clean := CleanReply(reply.value, |candidates|);
    CleanIsRanking(reply.value, |candidates|);
    var top := Take(clean, topK);
    r := [];
    for i := 0 to |top|
      invariant r == Rerank(candidates, topK, reply)[..i]
    {
      assert top[i] == clean[i] && clean[i] in clean;
      r := r + [candidates[top[i]]];
    }
  }

  method Search(dense: seq<int>, bm25: seq<int>, rrfK: nat, k: nat, reranker: Reranker, ghost n: nat)
      returns (r: seq<int>)
    requires Ranking(dense, n) && Ranking(bm25, n)
    ensures r == SearchSpec(dense, bm25, rrfK, k, reranker)
  {
    var rrf := Fuse(dense, bm25, rrfK, n);
    var fused := SortByScore(rrf, dense, bm25, rrfK);
    match reranker {
      case Off =>
        r := Take(fused, k);
      case On(pool, reply) =>
        r := RerankCandidates(Take(fused, Max(k, pool)), k, reply);
    }
  }

  /** `sorted(rrf, key=..., reverse=True)`: stable, so ties keep the dense order. */
  method SortByScore(rrf: OrderedMap<int, real>, dense: seq<int>, bm25: seq<int>, rrfK: nat) returns (fused: seq<int>)
    requires rrf.keys == dense && (forall x | x in dense :: x in rrf.at)
    requires forall x | x in dense :: rrf.at[x] == Score(dense, bm25, rrfK, x)
    ensures fused == Fused(dense, bm25, rrfK)
  {
    var byValue := (a: int, b: int) => rrf.GetOr(a, 0.0) >= rrf.GetOr(b, 0.0);
    fused := Sort(rrf.keys, byValue);
    var docs := Elements(dense);
    SortAgrees(dense, byValue, ByScore(dense, bm25, rrfK), docs);
  }

  ghost predicate Within(xs: seq<int>, dom: set<int>) {
    forall i | 0 <= i < |xs| :: xs[i] in dom
  }

  ghost predicate SameOn(le: (int, int) -> bool, le': (int, int) -> bool, dom: set<int>) {
    forall a, b | a in dom && b in dom :: le(a, b) == le'(a, b)
  }

  /** Sorting looks at comparisons between its elements only. */
  lemma {:induction false} SortAgrees(xs: seq<int>, le: (int, int) -> bool, le': (int, int) -> bool, dom: set<int>)
    requires Within(xs, dom) && SameOn(le, le', dom)
    ensures Sort(xs, le) == Sort(xs, le') && Within(Sort(xs, le), dom)
  {
    if xs != [] {
      SortAgrees(xs[1..], le, le', dom);
      InsertAgrees(xs[0], Sort(xs[1..], le), le, le', dom);
    }
  }

  lemma {:induction false} InsertAgrees(x: int, xs: seq<int>, le: (int, int) -> bool, le': (int, int) -> bool, dom: set<int>)
    requires x in dom && Within(xs, dom) && SameOn(le, le', dom)
    ensures Insert(x, xs, le) == Insert(x, xs, le') && Within(Insert(x, xs, le), dom)
  {
    if xs != [] {
      var y: int := xs[0];
      assert y in dom && le(x, y) == le'(x, y);
      InsertAgrees(x, xs[1..], le, le', dom);
    }
  }

  // ---------------------------------------------------------------- promises

  lemma ByScorePreorder(dense: seq<int>, bm25: seq<int>, rrfK: nat)
    ensures TotalPreorder(ByScore(dense, bm25, rrfK))
  {
  }

  lemma FusedIsRanking(dense: seq<int>, bm25: seq<int>, rrfK: nat, n: nat)
    requires Ranking(dense, n)
    ensures Ranking(Fused(dense, bm25, rrfK), n)
  {
    var fused := Fused(dense, bm25, rrfK);
    SortPermutes(dense, ByScore(dense, bm25, rrfK));
    DistinctPermuted(dense, fused);
    forall x | x in fused ensures 0 <= x < n {
      assert x in multiset(fused);
      assert x in dense;
    }
  }

  /** For every reply of the reranker, a search returns min(k, n) distinct documents. */
  lemma SearchReturnsDistinct(dense: seq<int>, bm25: seq<int>, rrfK: nat, k: nat, reranker: Reranker, n: nat)
    requires Ranking(dense, n) && Ranking(bm25, n)
    ensures var r := SearchSpec(dense, bm25, rrfK, k, reranker);
            && |r| == (if k <= n then k else n) && Distinct(r) && forall x | x in r :: 0 <= x < n
  {
    var fused := Fused(dense, bm25, rrfK);
    FusedIsRanking(dense, bm25, rrfK, n);
    var pool := match reranker case Off => k case On(p, _) => Max(k, p);
    TakeKeeps(fused, pool);
    TakeKeeps(fused, k);
    if reranker.On? {
      RerankDistinct(Take(fused, Max(k, reranker.pool)), k, reranker.reply, n);
    }
  }

  lemma TakeKeeps(xs: seq<int>, n: nat)
    ensures forall x | x in Take(xs, n) :: x in xs
    ensures Distinct(xs) ==> Distinct(Take(xs, n))
  {
  }

  lemma RerankDistinct(candidates: seq<int>, topK: nat, reply: Option<seq<int>>, n: nat)
    requires Distinct(candidates) && forall x | x in candidates :: 0 <= x < n
    ensures var r := Rerank(candidates, topK, reply);
            && |r| == (if topK <= |candidates| then topK else |candidates|)
            && Distinct(r) && forall x | x in r :: 0 <= x < n
  {
    TakeKeeps(candidates, topK);
    if reply.Some? {
      var clean := WithDropped(Mentioned(reply.value, |candidates|), |candidates|);
      CleanIsRanking(reply.value, |candidates|);
      var top := Take(clean, topK);
      var r := Rerank(candidates, topK, reply);
      forall i | 0 <= i < |top| ensures 0 <= top[i] < |candidates| && r[i] == candidates[top[i]] && r[i] in candidates {
        assert top[i] == clean[i] && clean[i] in clean;
      }
    }
  }

  lemma ReciprocalFalls(rrfK: nat, a: nat, b: nat)
    requires a < b
    ensures Reciprocal(rrfK, a) > Reciprocal(rrfK, b)
  {
    var x, y := (rrfK + a + 1) as real, (rrfK + b + 1) as real;
    assert 0.0 < x < y;
    InverseFalls(x, y);
  }

  lemma InverseFalls(x: real, y: real)
    requires 0.0 < x < y
    ensures 1.0 / x > 1.0 / y
  {
    var a, b := 1.0 / x, 1.0 / y;
    assert a * x == 1.0 && b * y == 1.0;
    assert b > 0.0;
    assert b * x < b * y;
    assert (a - b) * x > 0.0;
  }

  /** Without reranking, a document ahead in both arms is ahead in the fused order. */
  lemma AheadInBothArms(dense: seq<int>, bm25: seq<int>, rrfK: nat, n: nat, a: int, b: int)
    requires Ranking(dense, n) && Ranking(bm25, n) && a in dense && b in dense
    requires Place(dense, a) < Place(dense, b) && Place(bm25, a) < Place(bm25, b)
    ensures Place(Fused(dense, bm25, rrfK), a) < Place(Fused(dense, bm25, rrfK), b) < n
  {
    var le := ByScore(dense, bm25, rrfK);
    var fused := Fused(dense, bm25, rrfK);
    FusedIsRanking(dense, bm25, rrfK, n);
    ByScorePreorder(dense, bm25, rrfK);
    SortSorts(dense, le);
    SameDocuments(fused, dense, n, a);
    SameDocuments(fused, dense, n, b);
    ScoreFalls(dense, bm25, rrfK, a, b);
    var i, j := Place(fused, a), Place(fused, b);
    assert fused[i] == a && fused[j] == b;
    OrderedPlaces(fused, le, i, j);
  }

  lemma OrderedPlaces(xs: seq<int>, le: (int, int) -> bool, i: nat, j: nat)
    requires SortedBy(xs, le) && i < |xs| && j < |xs| && i != j && !le(xs[j], xs[i])
    ensures i < j
  {
  }

  lemma ScoreFalls(dense: seq<int>, bm25: seq<int>, rrfK: nat, a: int, b: int)
    requires Place(dense, a) < Place(dense, b) && Place(bm25, a) < Place(bm25, b)
    ensures !ByScore(dense, bm25, rrfK)(b, a)
  {
    ReciprocalFalls(rrfK, Place(dense, a), Place(dense, b));
    ReciprocalFalls(rrfK, Place(bm25, a), Place(bm25, b));
  }

  /** A document both arms rank first comes out first. */
  lemma UnanimousWinner(dense: seq<int>, bm25: seq<int>, rrfK: nat, k: nat, n: nat)
    requires Ranking(dense, n) && Ranking(bm25, n) && n > 0 && k > 0 && dense[0] == bm25[0]
    ensures SearchSpec(dense, bm25, rrfK, k, Off)[..1] == [dense[0]]
  {
    var fused := Fused(dense, bm25, rrfK);
    FusedIsRanking(dense, bm25, rrfK, n);
    var w := dense[0];
    SameDocuments(fused, dense, n, w);
    if fused[0] != w {
      assert fused[0] in fused;
      SameDocuments(dense, fused, n, fused[0]);
      SameDocuments(bm25, fused, n, fused[0]);
      assert Place(dense, w) == 0 && Place(bm25, w) == 0;
      AheadInBothArms(dense, bm25, rrfK, n, w, fused[0]);
    }
  }
}
