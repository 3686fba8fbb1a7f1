/** Whose document comes before whose in a search result. */
module RankLaws {
  import opened Results
  import opened Sequences
  import opened Orders
  import opened RankFusion

  ghost predicate Before<T>(xs: seq<T>, a: T, b: T) {
    exists i, j | 0 <= i < j < |xs| :: xs[i] == a && xs[j] == b
  }

  lemma BeforeAppend<T>(xs: seq<T>, more: seq<T>, a: T, b: T)
    requires Before(xs, a, b)
    ensures Before(xs + more, a, b)
  {
    var i, j :| 0 <= i < j < |xs| && xs[i] == a && xs[j] == b;
    assert (xs + more)[i] == a && (xs + more)[j] == b;
  }

  lemma BeforePrepend<T>(x: T, xs: seq<T>, a: T, b: T)
    requires Before(xs, a, b)
    ensures Before([x] + xs, a, b)
  {
    var i, j :| 0 <= i < j < |xs| && xs[i] == a && xs[j] == b;
    assert ([x] + xs)[i + 1] == a && ([x] + xs)[j + 1] == b;
  }

  lemma HeadFirst<T>(x: T, xs: seq<T>, b: T)
    requires b in xs
    ensures Before([x] + xs, x, b)
  {
    var j :| 0 <= j < |xs| && xs[j] == b;
    assert ([x] + xs)[0] == x && ([x] + xs)[j + 1] == b;
  }

  lemma AcrossBefore<T>(xs: seq<T>, ys: seq<T>, a: T, b: T)
    requires a in xs && b in ys
    ensures Before(xs + ys, a, b)
  {
    var i :| 0 <= i < |xs| && xs[i] == a;
    var j :| 0 <= j < |ys| && ys[j] == b;
    assert (xs + ys)[i] == a && (xs + ys)[|xs| + j] == b;
  }

  lemma BeforeIsPlace(xs: seq<int>, a: int, b: int)
    requires Distinct(xs) && Before(xs, a, b)
    ensures Place(xs, a) < Place(xs, b) < |xs|
  {
    var i, j :| 0 <= i < j < |xs| && xs[i] == a && xs[j] == b;
    PlaceOf(xs, i);
    PlaceOf(xs, j);
  }

  // ---------------------------------------------------------------- stability

  lemma {:induction false} InsertGoesBefore<T>(x: T, xs: seq<T>, le: (T, T) -> bool, y: T)
    requires y in xs && le(x, y)
    ensures Before(Insert(x, xs, le), x, y)
  {
    if le(x, xs[0]) {
      HeadFirst(x, xs, y);
    } else {
      assert y in xs[1..];
      InsertGoesBefore(x, xs[1..], le, y);
      BeforePrepend(xs[0], Insert(x, xs[1..], le), x, y);
    }
  }

  lemma {:induction false} InsertKeepsBefore<T>(x: T, xs: seq<T>, le: (T, T) -> bool, a: T, b: T)
    requires Before(xs, a, b)
    ensures Before(Insert(x, xs, le), a, b)
  {
    if le(x, xs[0]) {
      BeforePrepend(x, xs, a, b);
    } else {
      var i, j :| 0 <= i < j < |xs| && xs[i] == a && xs[j] == b;
      var rest := Insert(x, xs[1..], le);
      if i == 0 {
        InsertPermutes(x, xs[1..], le);
        assert xs[1..][j - 1] == b;
        assert b in multiset(rest);
        HeadFirst(a, rest, b);
      } else {
        assert xs[1..][i - 1] == a && xs[1..][j - 1] == b;
        InsertKeepsBefore(x, xs[1..], le, a, b);
        BeforePrepend(xs[0], rest, a, b);
      }
    }
  }

  /** The sort is stable: of two elements in order the earlier one stays ahead. */
  lemma {:induction false} SortStable<T>(xs: seq<T>, le: (T, T) -> bool, i: nat, j: nat)
    requires i < j < |xs| && le(xs[i], xs[j])
    ensures Before(Sort(xs, le), xs[i], xs[j])
  {
    var rest := Sort(xs[1..], le);
    if i == 0 {
      SortPermutes(xs[1..], le);
      assert xs[1..][j - 1] == xs[j];
      assert xs[j] in multiset(rest);
      InsertGoesBefore(xs[0], rest, le, xs[j]);
    } else {
      SortStable(xs[1..], le, i - 1, j - 1);
      InsertKeepsBefore(xs[0], rest, le, xs[i], xs[j]);
    }
  }

  // ---------------------------------------------------------------- fusion

  /** A document's fused score, from its ranks in both arms. */
  function Rrf(dense: seq<int>, bm25: seq<int>, rrfK: nat, x: int): real {
    1.0 / (rrfK + Place(dense, x) + 1) as real + 1.0 / (rrfK + Place(bm25, x) + 1) as real
  }

  lemma FusedAhead(dense: seq<int>, bm25: seq<int>, rrfK: nat, n: nat, a: int, b: int)
    requires Ranking(dense, n) && a in dense && b in dense && a != b
    requires Rrf(dense, bm25, rrfK, a) > Rrf(dense, bm25, rrfK, b)
             || (Rrf(dense, bm25, rrfK, a) == Rrf(dense, bm25, rrfK, b) && Place(dense, a) < Place(dense, b))
    ensures Place(Fused(dense, bm25, rrfK), a) < Place(Fused(dense, bm25, rrfK), b) < n
  {
    var le, fused := ByScore(dense, bm25, rrfK), Fused(dense, bm25, rrfK);
    FusedIsRanking(dense, bm25, rrfK, n);
    assert le(a, b) && (Rrf(dense, bm25, rrfK, a) > Rrf(dense, bm25, rrfK, b) ==> !le(b, a));
    if Place(dense, a) < Place(dense, b) {
      SortStable(dense, le, Place(dense, a), Place(dense, b));
      BeforeIsPlace(fused, a, b);
    } else {
      FusedHolds(dense, bm25, rrfK, a);
      FusedHolds(dense, bm25, rrfK, b);
      ByScorePreorder(dense, bm25, rrfK);
      SortSorts(dense, le);
      OrderedPlaces(fused, le, Place(fused, a), Place(fused, b));
    }
  }

  lemma FusedHolds(dense: seq<int>, bm25: seq<int>, rrfK: nat, x: int)
    requires x in dense
    ensures x in Fused(dense, bm25, rrfK)
  {
    SortPermutes(dense, ByScore(dense, bm25, rrfK));
    assert x in multiset(dense);
    assert x in multiset(Fused(dense, bm25, rrfK));
  }

  /** The fused order exactly: a document is ahead of another iff the sum of its reciprocal ranks is larger, or
      the sums are equal and it is ahead in the dense arm. */
  lemma FusedOrderIff(dense: seq<int>, bm25: seq<int>, rrfK: nat, n: nat, a: int, b: int)
    requires Ranking(dense, n) && Ranking(bm25, n) && a in dense && b in dense && a != b
    ensures Place(Fused(dense, bm25, rrfK), a) < Place(Fused(dense, bm25, rrfK), b) <==>
            || Rrf(dense, bm25, rrfK, a) > Rrf(dense, bm25, rrfK, b)
            || (Rrf(dense, bm25, rrfK, a) == Rrf(dense, bm25, rrfK, b) && Place(dense, a) < Place(dense, b))
  {
    var x, y := Rrf(dense, bm25, rrfK, a), Rrf(dense, bm25, rrfK, b);
    assert Place(dense, a) != Place(dense, b);
    if x > y || (x == y && Place(dense, a) < Place(dense, b)) {
      FusedAhead(dense, bm25, rrfK, n, a, b);
    } else {
      FusedAhead(dense, bm25, rrfK, n, b, a);
    }
  }

  // ---------------------------------------------------------------- the reply

  /** The reply puts position `x` before position `y`: it mentions `x` first, or mentions neither and `x` is the
      smaller one. */
  predicate Prefers(reply: seq<int>, x: int, y: int) {
    Place(reply, x) < Place(reply, y) || (x !in reply && y !in reply && x < y)
  }

  lemma {:induction false} MentionedMembers(reply: seq<int>, n: nat, x: int)
    ensures x in Mentioned(reply, n) <==> x in reply && 0 <= x < n
  {
    if reply != [] {
      var m := |reply| - 1;
      MentionedMembers(reply[..m], n, x);
      assert reply == reply[..m] + [reply[m]];
    }
  }

  lemma {:induction false} PlaceInFront(xs: seq<int>, last: int, x: int)
    ensures Place(xs + [last], x) == if x in xs then Place(xs, x) else if x == last then |xs| else |xs| + 1
  {
    if xs != [] && xs[0] != x {
      assert (xs + [last])[1..] == xs[1..] + [last];
      PlaceInFront(xs[1..], last, x);
    }
  }

  lemma {:induction false} MentionedInOrder(reply: seq<int>, n: nat, x: int, y: int)
    requires 0 <= x < n && y in Mentioned(reply, n) && Place(reply, x) < Place(reply, y)
    ensures Before(Mentioned(reply, n), x, y)
  {
    var m := |reply| - 1;
    var front, last := reply[..m], reply[m];
    assert reply == front + [last];
    PlaceInFront(front, last, x);
    PlaceInFront(front, last, y);
    MentionedMembers(front, n, x);
    MentionedMembers(front, n, y);
    var before := Mentioned(front, n);
    if y in before {
      MentionedInOrder(front, n, x, y);
      BeforeAppend(before, if 0 <= last < n && last !in before then [last] else [], x, y);
    } else {
      AcrossBefore(before, [last], x, y);
    }
  }

  lemma {:induction false} DroppedSplit(seen: seq<int>, i: nat) returns (more: seq<int>)
    ensures WithDropped(seen, i) == seen + more
    ensures forall x :: x in more <==> 0 <= x < i && x !in seen
    ensures forall p, q | 0 <= p < q < |more| :: more[p] < more[q]
  {
    if i == 0 {
      more := [];
    } else {
      var before := DroppedSplit(seen, i - 1);
      assert forall p | 0 <= p < |before| :: before[p] in before;
      if i - 1 in seen {
        more := before;
      } else {
        more := before + [i - 1];
        assert seen + before + [i - 1] == seen + more;
      }
    }
  }

  lemma PrefersAhead(reply: seq<int>, n: nat, x: int, y: int)
    requires 0 <= x < n && 0 <= y < n && Prefers(reply, x, y)
    ensures Before(WithDropped(Mentioned(reply, n), n), x, y)
  {
    var seen := Mentioned(reply, n);
    var more := DroppedSplit(seen, n);
    MentionedMembers(reply, n, x);
    MentionedMembers(reply, n, y);
    if y in seen {
      MentionedInOrder(reply, n, x, y);
      BeforeAppend(seen, more, x, y);
    } else if x in seen {
      AcrossBefore(seen, more, x, y);
    } else {
      var p :| 0 <= p < |more| && more[p] == x;
      var q :| 0 <= q < |more| && more[q] == y;
      assert p < q;
      assert (seen + more)[|seen| + p] == x && (seen + more)[|seen| + q] == y;
    }
  }

  /** The cleaned order exactly: first mentions in the reply's order, then the dropped positions in theirs. */
  lemma CleanOrderIff(reply: seq<int>, n: nat, x: int, y: int)
    requires 0 <= x < n && 0 <= y < n && x != y
    ensures var clean := WithDropped(Mentioned(reply, n), n);
            Place(clean, x) < Place(clean, y) <==> Prefers(reply, x, y)
  {
    var clean := WithDropped(Mentioned(reply, n), n);
    CleanIsRanking(reply, n);
    if Prefers(reply, x, y) {
      PrefersAhead(reply, n, x, y);
      BeforeIsPlace(clean, x, y);
    } else {
      if Place(reply, x) == Place(reply, y) {
        SamePlaceSame(reply, x, y);
      }
      PrefersAhead(reply, n, y, x);
      BeforeIsPlace(clean, y, x);
    }
  }

  lemma SamePlaceSame(reply: seq<int>, x: int, y: int)
    requires x != y && Place(reply, x) == Place(reply, y)
    ensures x !in reply && y !in reply
  {
  }

  /** The i-th document returned is the candidate at the i-th position of the cleaned order. */
  lemma RerankAt(candidates: seq<int>, topK: nat, reply: seq<int>)
    ensures var r, clean := Rerank(candidates, topK, Some(reply)), WithDropped(Mentioned(reply, |candidates|), |candidates|);
            |r| <= |clean| && forall i | 0 <= i < |r| :: clean[i] in clean && 0 <= clean[i] < |candidates| && r[i] == candidates[clean[i]]
  {
    CleanIsRanking(reply, |candidates|);
  }

  /** A reranked result follows the reply: of two candidates, if the one the reply puts second is returned, so is
      the other one, ahead of it. */
  lemma RerankFollowsReply(candidates: seq<int>, topK: nat, reply: seq<int>, docs: nat, x: nat, y: nat)
    requires Distinct(candidates) && (forall d | d in candidates :: 0 <= d < docs)
    requires x < |candidates| && y < |candidates| && Prefers(reply, x, y)
    ensures var r := Rerank(candidates, topK, Some(reply));
            candidates[y] in r ==> Place(r, candidates[x]) < Place(r, candidates[y]) < |r|
  {
    var r, n := Rerank(candidates, topK, Some(reply)), |candidates|;
    var clean := WithDropped(Mentioned(reply, n), n);
    CleanIsRanking(reply, n);
    if candidates[y] in r {
      RerankDistinct(candidates, topK, Some(reply), docs);
      RerankAt(candidates, topK, reply);
      PrefersAhead(reply, n, x, y);
      BeforeIsPlace(clean, x, y);
      var at :| 0 <= at < |r| && r[at] == candidates[y];
      PlaceOf(clean, at);
      assert clean[at] == y;
      var p := Place(clean, x);
      assert r[p] == candidates[x];
      PlaceOf(r, p);
      PlaceOf(r, at);
    }
  }

  /** A reranked search chooses among the first max(k, pool) fused documents and lists them as the reply does. */
  lemma SearchFollowsReply(dense: seq<int>, bm25: seq<int>, rrfK: nat, k: nat, pool: nat, reply: seq<int>, n: nat,
                           x: nat, y: nat)
    requires Ranking(dense, n) && Ranking(bm25, n) && (x < k || x < pool) && (y < k || y < pool) && x < n && y < n
    requires Prefers(reply, x, y)
    ensures var fused, r := Fused(dense, bm25, rrfK), SearchSpec(dense, bm25, rrfK, k, On(pool, Some(reply)));
            && |fused| == n
            && (fused[y] in r ==> Place(r, fused[x]) < Place(r, fused[y]) < |r|)
            && forall d | d in r :: Place(fused, d) < n && (Place(fused, d) < k || Place(fused, d) < pool)
  {
    var fused := Fused(dense, bm25, rrfK);
    FusedIsRanking(dense, bm25, rrfK, n);
    var offered := Take(fused, Max(k, pool));
    TakeKeeps(fused, Max(k, pool));
    RerankFollowsReply(offered, k, reply, n, x, y);
    var r := Rerank(offered, k, Some(reply));
    RerankAt(offered, k, reply);
    forall d | d in r ensures Place(fused, d) < n && (Place(fused, d) < k || Place(fused, d) < pool) {
      var clean := WithDropped(Mentioned(reply, |offered|), |offered|);
      var i :| 0 <= i < |r| && r[i] == d;
      assert d == fused[clean[i]];
      PlaceOf(fused, clean[i]);
    }
  }

  /** Without a reranker, or with a reply it cannot read, a search returns the first k fused documents. */
  lemma SearchUnranked(dense: seq<int>, bm25: seq<int>, rrfK: nat, k: nat, pool: nat, n: nat)
    requires Ranking(dense, n) && Ranking(bm25, n)
    ensures var r := SearchSpec(dense, bm25, rrfK, k, Off);
            && r == SearchSpec(dense, bm25, rrfK, k, On(pool, None))
            && |Fused(dense, bm25, rrfK)| == n
            && r == if k <= n then Fused(dense, bm25, rrfK)[..k] else Fused(dense, bm25, rrfK)
  {
    FusedIsRanking(dense, bm25, rrfK, n);
  }
}
