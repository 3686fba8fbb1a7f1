/** `bench/lme_scale.py`: a benchmark sample that takes turns between question types. */
module Sampler {
  import opened Sequences
  import opened Orders
  import opened OrderedMaps

  datatype Question = Question(id: string, kind: string)

  type Queues = OrderedMap<string, seq<Question>>

  /** The questions of one kind, in the order given. */
  function OfKind(qs: seq<Question>, kind: string): seq<Question> {
    if qs == [] then []
    else
      var last := qs[|qs| - 1];
      OfKind(qs[..|qs| - 1], kind) + if last.kind == kind then [last] else []
  }

  function Count(qs: seq<Question>, kind: string): nat {
    |OfKind(qs, kind)|
  }

  /** How many questions of its own kind stand ahead of position `i`: the round it is played in. */
  function RoundOf(qs: seq<Question>, i: nat): nat
    requires i < |qs|
  {
    Count(qs[..i], qs[i].kind)
  }

  /** Rounds follow each other, and inside a round the kinds follow in name order. */
  ghost predicate TakesTurns(qs: seq<Question>) {
    forall i, j | 0 <= i < j < |qs| :: TurnBefore(RoundOf(qs, i), qs[i].kind, RoundOf(qs, j), qs[j].kind)
  }

  predicate TurnBefore(round: nat, kind: string, round': nat, kind': string) {
    round < round' || (round == round' && StringLe(kind, kind'))
  }

  /** Every kind keeps its own questions in its own order. */
  ghost predicate KeepsKinds(qs: seq<Question>, data: seq<Question>) {
    forall kind :: OfKind(qs, kind) == OfKind(data, kind)
  }

  ghost predicate Balanced(data: seq<Question>, ordered: seq<Question>) {
    KeepsKinds(ordered, data) && TakesTurns(ordered)
  }

  // ---- Counting by kind -------------------------------------------------------------------------

  lemma OfKindStep(qs: seq<Question>, i: nat, kind: string)
    requires i < |qs|
    ensures OfKind(qs[..i + 1], kind) == OfKind(qs[..i], kind) + if qs[i].kind == kind then [qs[i]] else []
  {
    assert qs[..i + 1][..i] == qs[..i];
  }

  lemma OfKindAppend(qs: seq<Question>, q: Question, kind: string)
    ensures OfKind(qs + [q], kind) == OfKind(qs, kind) + if q.kind == kind then [q] else []
  {
    assert (qs + [q])[..|qs|] == qs;
  }

  /** A kind with questions left after position `i` has its next one in the round it has reached. */
  lemma {:induction false} NextOfKind(qs: seq<Question>, i: nat, kind: string) returns (j: nat)
    requires i <= |qs| && Count(qs[..i], kind) < Count(qs, kind)
    ensures i <= j < |qs| && qs[j].kind == kind && RoundOf(qs, j) == Count(qs[..i], kind)
    decreases |qs| - i
  {
    assert qs[..|qs|] == qs;
    if qs[i].kind == kind {
      j := i;
    } else {
      OfKindStep(qs, i, kind);
      j := NextOfKind(qs, i + 1, kind);
    }
  }

  lemma {:induction false} LastOfKind(qs: seq<Question>, n: nat, kind: string) returns (i: nat)
    requires n <= |qs| && Count(qs[..n], kind) > 0
    ensures i < n && qs[i].kind == kind && RoundOf(qs, i) == Count(qs[..n], kind) - 1
  {
    OfKindStep(qs, n - 1, kind);
    if qs[n - 1].kind == kind {
      i := n - 1;
    } else {
      i := LastOfKind(qs, n - 1, kind);
    }
  }

  /** The counts of the listed kinds, added up. */
  function Tally(qs: seq<Question>, kinds: seq<string>): nat {
    if kinds == [] then 0
    else Tally(qs, kinds[..|kinds| - 1]) + Count(qs, kinds[|kinds| - 1])
  }

  lemma {:induction false} TallyAppend(qs: seq<Question>, q: Question, kinds: seq<string>)
    requires Distinct(kinds)
    ensures Tally(qs + [q], kinds) == Tally(qs, kinds) + if q.kind in kinds then 1 else 0
  {
    if kinds != [] {
      var m := |kinds| - 1;
      TallyAppend(qs, q, kinds[..m]);
      OfKindAppend(qs, q, kinds[m]);
      assert q.kind in kinds <==> q.kind in kinds[..m] || q.kind == kinds[m];
    }
  }

  lemma {:induction false} TallyNone(kinds: seq<string>)
    ensures Tally([], kinds) == 0
  {
    if kinds != [] {
      TallyNone(kinds[..|kinds| - 1]);
    }
  }

  lemma {:induction false} TallyIsSize(qs: seq<Question>, kinds: seq<string>)
    requires Distinct(kinds) && forall i | 0 <= i < |qs| :: qs[i].kind in kinds
    ensures Tally(qs, kinds) == |qs|
  {
    if qs == [] {
      TallyNone(kinds);
    } else {
      var m := |qs| - 1;
      TallyIsSize(qs[..m], kinds);
      TallyAppend(qs[..m], qs[m], kinds);
      assert qs == qs[..m] + [qs[m]];
    }
  }

  lemma {:induction false} TallyWithin(a: seq<Question>, b: seq<Question>, kinds: seq<string>)
    requires forall kind | kind in kinds :: Count(a, kind) <= Count(b, kind)
    ensures Tally(a, kinds) <= Tally(b, kinds)
    ensures Tally(a, kinds) == Tally(b, kinds) ==> forall kind | kind in kinds :: Count(a, kind) == Count(b, kind)
  {
    if kinds != [] {
      TallyWithin(a, b, kinds[..|kinds| - 1]);
    }
  }

  lemma {:induction false} TallyOneEach(qs: seq<Question>, kinds: seq<string>)
    requires forall i | 0 <= i < |kinds| :: Count(qs, kinds[i]) <= 1
    ensures Tally(qs, kinds) <= |kinds|
  {
    if kinds != [] {
      TallyOneEach(qs, kinds[..|kinds| - 1]);
    }
  }

  lemma {:induction false} KindOccurs(qs: seq<Question>, i: nat)
    requires i < |qs|
    ensures qs[i] in OfKind(qs, qs[i].kind)
  {
    var m := |qs| - 1;
    if i < m {
      KindOccurs(qs[..m], i);
    }
  }

  lemma {:induction false} OfKindMembers(qs: seq<Question>, kind: string, q: Question)
    requires q in OfKind(qs, kind)
    ensures q in qs && q.kind == kind
  {
    var m := |qs| - 1;
    if q in OfKind(qs[..m], kind) {
      OfKindMembers(qs[..m], kind, q);
    }
  }

  lemma {:induction false} CopiesOfKind(qs: seq<Question>, q: Question)
    ensures multiset(qs)[q] == multiset(OfKind(qs, q.kind))[q]
  {
    if qs != [] {
      CopiesOfKind(qs[..|qs| - 1], q);
      FrontAndLast(qs);
    }
  }

  // ---- The sampler ------------------------------------------------------------------------------

  /** What is still queued for a kind; an unknown kind has nothing queued. */
  ghost function Left(queues: Queues, kind: string): seq<Question> {
    queues.GetOr(kind, [])
  }

  /** Placed and queued questions of a kind together are that kind's questions. */
  ghost predicate Accounts(data: seq<Question>, ordered: seq<Question>, queues: Queues) {
    forall kind :: OfKind(data, kind) == OfKind(ordered, kind) + Left(queues, kind)
  }

  /** Between turns of round `round`, with `played` the kinds that have had their turn. */
  ghost predicate MidRound(ordered: seq<Question>, queues: Queues, round: nat, played: seq<string>) {
    && (forall i | 0 <= i < |ordered| ::
          RoundOf(ordered, i) < round || (RoundOf(ordered, i) == round && ordered[i].kind in played))
    && (forall kind | Left(queues, kind) != [] ::
          Count(ordered, kind) == if kind in played then round + 1 else round)
  }

  ghost predicate Groups(queues: Queues, qs: seq<Question>) {
    && queues.Valid()
    && (forall kind :: Left(queues, kind) == OfKind(qs, kind))
    && (forall i | 0 <= i < |qs| :: qs[i].kind in queues.keys)
  }

  method GroupByKind(data: seq<Question>) returns (byType: Queues)
    ensures Groups(byType, data)
  {
    byType := OrderedMap([], map[]);
    for n := 0 to |data|
      invariant Groups(byType, data[..n])
    {
      var q := data[n];
      var before := byType;
      byType := before.Set(q.kind, before.GetOr(q.kind, []) + [q]);
      before.SetValid(q.kind, before.GetOr(q.kind, []) + [q]);
      forall kind ensures Left(byType, kind) == OfKind(data[..n + 1], kind) {
        OfKindStep(data, n, kind);
        assert Left(before, kind) == OfKind(data[..n], kind);
      }
    }
    assert data[..|data|] == data;
  }

  /** One turn appends behind everything already placed. */
  lemma TurnKeepsOrder(ordered: seq<Question>, q: Question, played: seq<string>, round: nat)
    requires TakesTurns(ordered)
    requires Count(ordered, q.kind) == round
    requires forall i | 0 <= i < |ordered| ::
               RoundOf(ordered, i) < round || (RoundOf(ordered, i) == round && ordered[i].kind in played)
    requires forall kind | kind in played :: StringLe(kind, q.kind)
    ensures TakesTurns(ordered + [q])
    ensures forall i | 0 <= i < |ordered| + 1 ::
              RoundOf(ordered + [q], i) < round
              || (RoundOf(ordered + [q], i) == round && (ordered + [q])[i].kind in played + [q.kind])
  {
    var after := ordered + [q];
    assert after[..|ordered|] == ordered;
    forall i | 0 <= i < |ordered| ensures RoundOf(after, i) == RoundOf(ordered, i) {
      assert after[..i] == ordered[..i];
    }
  }

  lemma Progress(data: seq<Question>, ordered: seq<Question>, queues: Queues, kinds: seq<string>)
    requires Accounts(data, ordered, queues) && Distinct(kinds)
    requires forall i | 0 <= i < |data| :: data[i].kind in kinds
    requires forall i | 0 <= i < |ordered| :: ordered[i].kind in kinds
    ensures |ordered| <= |data|
    ensures |ordered| == |data| ==> KeepsKinds(ordered, data)
    ensures |ordered| < |data| ==> exists kind | kind in kinds :: Left(queues, kind) != []
  {
    forall kind ensures Count(data, kind) == Count(ordered, kind) + |Left(queues, kind)| {
    }
    TallyIsSize(data, kinds);
    TallyIsSize(ordered, kinds);
    TallyWithin(ordered, data, kinds);
    if forall kind | kind in kinds :: Left(queues, kind) == [] {
      TallyWithin(data, ordered, kinds);
    }
    if |ordered| == |data| {
      forall kind ensures OfKind(ordered, kind) == OfKind(data, kind) {
        if kind !in kinds {
          NoneOfKind(data, kind);
        }
        assert |Left(queues, kind)| == 0;
      }
    }
  }

  lemma {:induction false} NoneOfKind(qs: seq<Question>, kind: string)
    requires forall i | 0 <= i < |qs| :: qs[i].kind != kind
    ensures OfKind(qs, kind) == []
  {
    if qs != [] {
      NoneOfKind(qs[..|qs| - 1], kind);
    }
  }

  /** The state of a run between two turns. */
  ghost predicate Playing(data: seq<Question>, kinds: seq<string>, ordered: seq<Question>, queues: Queues,
                          round: nat, played: seq<string>)
  {
    && Accounts(data, ordered, queues) && TakesTurns(ordered) && MidRound(ordered, queues, round, played)
    && (forall i | 0 <= i < |ordered| :: ordered[i].kind in kinds)
    && (forall kind | Left(queues, kind) != [] :: kind in kinds)
  }

  lemma Turn(data: seq<Question>, kinds: seq<string>, ordered: seq<Question>, queues: Queues,
             round: nat, played: seq<string>, kind: string)
    requires Playing(data, kinds, ordered, queues, round, played)
    requires kind !in played && forall k | k in played :: StringLe(k, kind)
    ensures Left(queues, kind) == [] ==> Playing(data, kinds, ordered, queues, round, played + [kind])
    ensures Left(queues, kind) != [] ==>
              Playing(data, kinds, ordered + [Left(queues, kind)[0]],
                      queues.Set(kind, Left(queues, kind)[1..]), round, played + [kind])
  {
    if Left(queues, kind) != [] {
      var q := Left(queues, kind)[0];
      HeadOfQueue(data, ordered, queues, kind);
      TurnKeepsOrder(ordered, q, played, round);
      TurnAccounts(data, ordered, queues, q);
      TurnCounts(ordered, queues, q, played, round);
      TurnStaysListed(kinds, ordered, queues, q);
    }
  }

  lemma TurnStaysListed(kinds: seq<string>, ordered: seq<Question>, queues: Queues, q: Question)
    requires forall i | 0 <= i < |ordered| :: ordered[i].kind in kinds
    requires forall kind | Left(queues, kind) != [] :: kind in kinds
    requires Left(queues, q.kind) != []
    ensures forall i | 0 <= i < |ordered| + 1 :: (ordered + [q])[i].kind in kinds
    ensures forall kind | Left(queues.Set(q.kind, Left(queues, q.kind)[1..]), kind) != [] :: kind in kinds
  {
    var after := queues.Set(q.kind, Left(queues, q.kind)[1..]);
    forall kind | Left(after, kind) != [] ensures kind in kinds {
      assert Left(queues, kind) != [];
    }
  }

  lemma RoundEnds(data: seq<Question>, kinds: seq<string>, ordered: seq<Question>, queues: Queues, round: nat)
    requires Playing(data, kinds, ordered, queues, round, kinds)
    ensures Playing(data, kinds, ordered, queues, round + 1, [])
  {
    forall kind | Left(queues, kind) != [] ensures Count(ordered, kind) == round + 1 {
      assert kind in kinds;
    }
  }

  /** One pass over the kinds: each kind with questions left plays its next one. */
  method PlayRound(data: seq<Question>, kinds: seq<string>, start: seq<Question>, queued: Queues, ghost round: nat)
    returns (ordered: seq<Question>, queues: Queues)
    requires Playing(data, kinds, start, queued, round, [])
    requires SortedBy(kinds, StringLe) && Distinct(kinds)
    ensures Playing(data, kinds, ordered, queues, round + 1, [])
    ensures |ordered| > |start| || forall kind | kind in kinds :: Left(queued, kind) == []
  {
    ordered, queues := start, queued;
    for t := 0 to |kinds|
      invariant Playing(data, kinds, ordered, queues, round, kinds[..t])
      invariant |ordered| > |start| || (ordered == start && queues == queued)
      invariant |ordered| > |start| || forall kind | kind in kinds[..t] :: Left(queued, kind) == []
    {
      var kind := kinds[t];
      assert kinds[..t + 1] == kinds[..t] + [kind];
      assert kind !in kinds[..t];
      Turn(data, kinds, ordered, queues, round, kinds[..t], kind);
      var queue := queues.GetOr(kind, []);
      if queue != [] {
        ordered, queues := ordered + [queue[0]], queues.Set(kind, queue[1..]);
      }
    }
    assert kinds[..|kinds|] == kinds;
    RoundEnds(data, kinds, ordered, queues, round);
  }

  lemma HeadOfQueue(data: seq<Question>, ordered: seq<Question>, queues: Queues, kind: string)
    requires Accounts(data, ordered, queues) && Left(queues, kind) != []
    ensures Left(queues, kind)[0].kind == kind
  {
    var q := Left(queues, kind)[0];
    assert OfKind(data, kind) == OfKind(ordered, kind) + Left(queues, kind);
    assert OfKind(data, kind)[Count(ordered, kind)] == q;
    OfKindMembers(data, kind, q);
  }

  lemma HeadMoves(placed: seq<Question>, queue: seq<Question>)
    requires queue != []
    ensures placed + queue == (placed + [queue[0]]) + queue[1..]
  {
  }

  lemma TurnAccounts(data: seq<Question>, ordered: seq<Question>, queues: Queues, q: Question)
    requires Accounts(data, ordered, queues) && Left(queues, q.kind) != [] && Left(queues, q.kind)[0] == q
    ensures Accounts(data, ordered + [q], queues.Set(q.kind, Left(queues, q.kind)[1..]))
  {
    var queue := Left(queues, q.kind);
    var after := queues.Set(q.kind, queue[1..]);
    HeadMoves(OfKind(ordered, q.kind), queue);
    forall kind ensures OfKind(data, kind) == OfKind(ordered + [q], kind) + Left(after, kind) {
      OfKindAppend(ordered, q, kind);
      assert OfKind(data, kind) == OfKind(ordered, kind) + Left(queues, kind);
      if kind != q.kind {
        assert OfKind(ordered + [q], kind) == OfKind(ordered, kind) && Left(after, kind) == Left(queues, kind);
      }
    }
  }

  lemma TurnCounts(ordered: seq<Question>, queues: Queues, q: Question, played: seq<string>, round: nat)
    requires MidRound(ordered, queues, round, played) && q.kind !in played
    requires Left(queues, q.kind) != []
    ensures forall kind | Left(queues.Set(q.kind, Left(queues, q.kind)[1..]), kind) != [] ::
              Count(ordered + [q], kind) == if kind in played + [q.kind] then round + 1 else round
  {
    var after := queues.Set(q.kind, Left(queues, q.kind)[1..]);
    forall kind | Left(after, kind) != []
      ensures Count(ordered + [q], kind) == if kind in played + [q.kind] then round + 1 else round
    {
      OfKindAppend(ordered, q, kind);
      assert Left(queues, kind) != [];
    }
  }

  /** The whole order, before any limit cuts it. */
  method RoundRobin(data: seq<Question>) returns (ordered: seq<Question>)
    ensures Balanced(data, ordered) && |ordered| == |data|
  {
    var byType := GroupByKind(data);
    var kinds := Sort(byType.keys, StringLe);
    StringOrder();
    SortPermutes(byType.keys, StringLe);
    SortSorts(byType.keys, StringLe);
    DistinctPermuted(byType.keys, kinds);
    assert forall kind | kind in byType.keys :: kind in multiset(kinds);
    ordered := [];
    ghost var round := 0;
    while |ordered| < |data|
      invariant Playing(data, kinds, ordered, byType, round, [])
      decreases |data| - |ordered|
    {
      Progress(data, ordered, byType, kinds);
      ordered, byType := PlayRound(data, kinds, ordered, byType, round);
      round := round + 1;
    }
    Progress(data, ordered, byType, kinds);
  }

  /** Python's `xs[:limit]`; a negative limit counts from the end. */
  function Slice(xs: seq<Question>, limit: int): (ys: seq<Question>)
    ensures ys <= xs
    ensures 0 <= limit <= |xs| ==> |ys| == limit
    ensures limit >= |xs| ==> ys == xs
    ensures limit < 0 ==> |ys| == if -limit <= |xs| then |xs| + limit else 0
  {
    if limit >= |xs| then xs
    else if limit >= 0 then xs[..limit]
    else if |xs| + limit >= 0 then xs[..|xs| + limit]
    else []
  }

  method BalancedSample(data: seq<Question>, limit: int) returns (sample: seq<Question>)
    ensures forall ordered | Balanced(data, ordered) :: sample == Slice(ordered, limit)
    ensures exists ordered :: Balanced(data, ordered) && |ordered| == |data| && sample == Slice(ordered, limit)
  {
    var ordered := RoundRobin(data);
    sample := Slice(ordered, limit);
    forall other | Balanced(data, other) ensures sample == Slice(other, limit) {
      OrderUnique(data, ordered, other);
    }
  }

  // ---- What the order promises ------------------------------------------------------------------

  /** Nothing is lost or repeated. */
  lemma OrderPermutes(data: seq<Question>, ordered: seq<Question>)
    requires KeepsKinds(ordered, data)
    ensures multiset(ordered) == multiset(data) && |ordered| == |data|
  {
    forall q ensures multiset(ordered)[q] == multiset(data)[q] {
      CopiesOfKind(ordered, q);
      CopiesOfKind(data, q);
      assert OfKind(ordered, q.kind) == OfKind(data, q.kind);
    }
    assert multiset(ordered) == multiset(data);
    assert |multiset(ordered)| == |multiset(data)|;
  }

  /** In every prefix a kind with questions left is at most one behind any other kind. */
  lemma PrefixBalanced(data: seq<Question>, ordered: seq<Question>, n: nat, behind: string, ahead: string)
    requires Balanced(data, ordered) && n <= |ordered|
    ensures Count(ordered[..n], ahead) <= Count(ordered[..n], behind) + 1
            || Count(ordered[..n], behind) == Count(data, behind)
  {
    OfKindPrefix(ordered, n, behind);
    assert OfKind(ordered, behind) == OfKind(data, behind);
    if Count(ordered[..n], ahead) > 0 && Count(ordered[..n], behind) < Count(data, behind) {
      var i := LastOfKind(ordered, n, ahead);
      var j := NextOfKind(ordered, n, behind);
      assert TurnBefore(RoundOf(ordered, i), ahead, RoundOf(ordered, j), behind);
    }
  }

  lemma {:induction false} OfKindPrefix(qs: seq<Question>, n: nat, kind: string)
    requires n <= |qs|
    ensures OfKind(qs[..n], kind) <= OfKind(qs, kind)
    decreases |qs| - n
  {
    assert qs[..|qs|] == qs;
    if n < |qs| {
      OfKindStep(qs, n, kind);
      OfKindPrefix(qs, n + 1, kind);
    }
  }

  function Without(kinds: seq<string>, z: nat): seq<string>
    requires z < |kinds|
  {
    kinds[..z] + kinds[z + 1..]
  }

  lemma WithoutKeeps(kinds: seq<string>, z: nat, kind: string)
    requires z < |kinds| && kind in kinds && kind != kinds[z]
    ensures kind in Without(kinds, z)
  {
    var k :| 0 <= k < |kinds| && kinds[k] == kind;
    assert Without(kinds, z)[if k < z then k else k - 1] == kind;
  }

  lemma PlacedKindListed(data: seq<Question>, ordered: seq<Question>, kinds: seq<string>, i: nat)
    requires KeepsKinds(ordered, data) && i < |ordered|
    requires forall k | 0 <= k < |data| :: data[k].kind in kinds
    ensures ordered[i].kind in kinds
  {
    KindOccurs(ordered, i);
    assert OfKind(ordered, ordered[i].kind) == OfKind(data, ordered[i].kind);
    OfKindMembers(data, ordered[i].kind, ordered[i]);
  }

  /** Without a question of kind `kinds[z]` and with at most one of any other, a list is shorter than the kinds. */
  lemma ShortWithout(qs: seq<Question>, kinds: seq<string>, z: nat)
    requires Distinct(kinds) && z < |kinds| && Count(qs, kinds[z]) == 0
    requires forall i | 0 <= i < |qs| :: qs[i].kind in kinds
    requires forall i | 0 <= i < |kinds| :: Count(qs, kinds[i]) <= 1
    ensures |qs| < |kinds|
  {
    var others := Without(kinds, z);
    forall i | 0 <= i < |qs| ensures qs[i].kind in others {
      KindOccurs(qs, i);
      WithoutKeeps(kinds, z, qs[i].kind);
    }
    TallyIsSize(qs, others);
    TallyOneEach(qs, others);
  }

  /** A limit of at least the number of kinds reaches every kind. */
  lemma SmallSampleCoversKinds(data: seq<Question>, ordered: seq<Question>, n: nat, kinds: seq<string>, kind: string)
    requires Balanced(data, ordered) && n <= |ordered|
    requires Distinct(kinds) && forall i | 0 <= i < |data| :: data[i].kind in kinds
    requires n >= |kinds| && kind in kinds && Count(data, kind) > 0
    ensures Count(ordered[..n], kind) > 0
  {
    if Count(ordered[..n], kind) == 0 {
      forall i | 0 <= i < |kinds| ensures Count(ordered[..n], kinds[i]) <= 1 {
        PrefixBalanced(data, ordered, n, kind, kinds[i]);
      }
      forall i | 0 <= i < n ensures ordered[..n][i].kind in kinds {
        PlacedKindListed(data, ordered, kinds, i);
      }
      var z :| 0 <= z < |kinds| && kinds[z] == kind;
      ShortWithout(ordered[..n], kinds, z);
      assert false;
    }
  }

  /** Taking turns and keeping every kind's order leave only one possible order. */
  lemma OrderUnique(data: seq<Question>, a: seq<Question>, b: seq<Question>)
    requires Balanced(data, a) && Balanced(data, b)
    ensures a == b
  {
    OrderPermutes(data, a);
    OrderPermutes(data, b);
    PrefixUnique(data, a, b, |a|);
    assert a[..|a|] == a && b[..|a|] == b;
  }

  lemma {:induction false} PrefixUnique(data: seq<Question>, a: seq<Question>, b: seq<Question>, n: nat)
    requires Balanced(data, a) && Balanced(data, b) && n <= |a| == |b|
    ensures a[..n] == b[..n]
  {
    if n > 0 {
      var i := n - 1;
      PrefixUnique(data, a, b, i);
      NextNotAfter(data, a, b, i);
      NextNotAfter(data, b, a, i);
      StringLeTotal(a[i].kind, b[i].kind);
      SameKindSame(data, a, b, i);
      assert a[..n] == a[..i] + [a[i]] && b[..n] == b[..i] + [b[i]];
    }
  }

  lemma NextNotAfter(data: seq<Question>, a: seq<Question>, b: seq<Question>, i: nat)
    requires Balanced(data, a) && Balanced(data, b) && i < |a| == |b| && a[..i] == b[..i]
    ensures TurnBefore(RoundOf(a, i), a[i].kind, RoundOf(b, i), b[i].kind)
  {
    var kind := b[i].kind;
    OfKindStep(b, i, kind);
    OfKindPrefix(b, i + 1, kind);
    assert OfKind(a, kind) == OfKind(data, kind) == OfKind(b, kind);
    var j := NextOfKind(a, i, kind);
    StringLeTotal(kind, kind);
  }

  lemma SameKindSame(data: seq<Question>, a: seq<Question>, b: seq<Question>, i: nat)
    requires Balanced(data, a) && Balanced(data, b) && i < |a| == |b| && a[..i] == b[..i]
    requires a[i].kind == b[i].kind
    ensures a[i] == b[i]
  {
    var kind := a[i].kind;
    var c := Count(a[..i], kind);
    OfKindStep(a, i, kind);
    OfKindStep(b, i, kind);
    OfKindPrefix(a, i + 1, kind);
    OfKindPrefix(b, i + 1, kind);
    assert OfKind(a, kind) == OfKind(data, kind) == OfKind(b, kind);
    assert OfKind(a, kind)[c] == a[i] && OfKind(b, kind)[c] == b[i];
  }

  // ---- Which question comes first ---------------------------------------------------------------

  /** The places before `n` with a question of this kind. */
  function Earlier(qs: seq<Question>, n: nat, kind: string): set<int>
    requires n <= |qs|
  {
    set p | 0 <= p < n && qs[p].kind == kind
  }

  lemma {:induction false} RoundCounts(qs: seq<Question>, n: nat, kind: string)
    requires n <= |qs|
    ensures |Earlier(qs, n, kind)| == Count(qs[..n], kind)
  {
    if n > 0 {
      RoundCounts(qs, n - 1, kind);
      OfKindStep(qs, n - 1, kind);
      assert Earlier(qs, n, kind) == Earlier(qs, n - 1, kind) + if qs[n - 1].kind == kind then {n - 1} else {};
    } else {
      assert Earlier(qs, 0, kind) == {};
    }
  }

  lemma LaterHasMore(qs: seq<Question>, i: nat, j: nat)
    requires i < j < |qs| && qs[i].kind == qs[j].kind
    ensures RoundOf(qs, i) < RoundOf(qs, j)
  {
    var kind := qs[i].kind;
    OfKindStep(qs, i, kind);
    assert qs[..j][..i + 1] == qs[..i + 1];
    OfKindPrefix(qs[..j], i + 1, kind);
  }

  /** Of two questions the one with fewer of its own kind before it comes first, and of two with equally many the
      one whose kind has the smaller name. */
  lemma TurnsIff(data: seq<Question>, ordered: seq<Question>, i: nat, j: nat)
    requires Balanced(data, ordered) && i < |ordered| && j < |ordered| && i != j
    ensures var x, y := |Earlier(ordered, i, ordered[i].kind)|, |Earlier(ordered, j, ordered[j].kind)|;
            i < j <==> x < y || (x == y && StringLe(ordered[i].kind, ordered[j].kind))
  {
    RoundCounts(ordered, i, ordered[i].kind);
    RoundCounts(ordered, j, ordered[j].kind);
    StringLeTotal(ordered[i].kind, ordered[j].kind);
    if j < i && ordered[i].kind == ordered[j].kind {
      LaterHasMore(ordered, j, i);
    }
  }
}
