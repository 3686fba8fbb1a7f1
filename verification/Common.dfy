/** Failure-carrying results shared by the models. */
module Results {
  datatype Option<+T> = None | Some(value: T)

  datatype Result<+T, +E> = Ok(value: T) | Err(error: E)
}

/** Sequences of values and what survives rearranging them. */
module Sequences {

  ghost predicate Distinct<T>(xs: seq<T>) {
    forall i, j | 0 <= i < j < |xs| :: xs[i] != xs[j]
  }

  function Map<A, B>(f: A -> B, xs: seq<A>): (ys: seq<B>)
    ensures |ys| == |xs|
    ensures forall i | 0 <= i < |xs| :: ys[i] == f(xs[i])
  {
    seq(|xs|, i requires 0 <= i < |xs| => f(xs[i]))
  }

  function Flatten<T>(shards: seq<seq<T>>): seq<T> {
    if shards == [] then [] else Flatten(shards[..|shards| - 1]) + shards[|shards| - 1]
  }

  lemma CancelOne<T>(a: multiset<T>, b: multiset<T>, x: T)
    requires a + multiset{x} == b + multiset{x}
    ensures a == b
  {
    assert a == a + multiset{x} - multiset{x};
    assert b == b + multiset{x} - multiset{x};
  }

  lemma HeadAndTail<T>(xs: seq<T>)
    requires xs != []
    ensures multiset(xs) == multiset(xs[1..]) + multiset{xs[0]}
  {
    assert xs == [xs[0]] + xs[1..];
  }

  lemma FrontAndLast<T>(xs: seq<T>)
    requires xs != []
    ensures multiset(xs) == multiset(xs[..|xs| - 1]) + multiset{xs[|xs| - 1]}
  {
    assert xs == xs[..|xs| - 1] + [xs[|xs| - 1]];
  }

  lemma Pull<T>(xs: seq<T>, x: T) returns (rest: seq<T>, i: nat)
    requires x in multiset(xs)
    ensures i < |xs| && xs[i] == x && rest == xs[..i] + xs[i + 1..]
    ensures multiset(xs) == multiset(rest) + multiset{x}
  {
    i :| 0 <= i < |xs| && xs[i] == x;
    rest := xs[..i] + xs[i + 1..];
    assert xs == xs[..i] + [x] + xs[i + 1..];
  }

  lemma MapPull<A, B>(f: A -> B, xs: seq<A>, i: nat)
    requires i < |xs|
    ensures multiset(Map(f, xs)) == multiset(Map(f, xs[..i] + xs[i + 1..])) + multiset{f(xs[i])}
  {
    var out := Map(f, xs);
    assert Map(f, xs[..i] + xs[i + 1..]) == out[..i] + out[i + 1..];
    assert out == out[..i] + [f(xs[i])] + out[i + 1..];
  }

  /** Mapping a rearrangement rearranges the mapping. */
  lemma {:induction false} MapPermutes<A, B>(f: A -> B, xs: seq<A>, ys: seq<A>)
    requires multiset(xs) == multiset(ys)
    ensures multiset(Map(f, xs)) == multiset(Map(f, ys))
  {
    assert |xs| == |multiset(xs)| == |multiset(ys)| == |ys|;
    if xs != [] {
      var m := |xs| - 1;
      FrontAndLast(xs);
      var rest, i := Pull(ys, xs[m]);
      CancelOne(multiset(xs[..m]), multiset(rest), xs[m]);
      MapPermutes(f, xs[..m], rest);
      MapPull(f, xs, m);
      assert xs[..m] + xs[m + 1..] == xs[..m];
      MapPull(f, ys, i);
    }
  }

  lemma TwiceInMultiset<T>(ys: seq<T>, i: nat, j: nat)
    requires i < j < |ys| && ys[i] == ys[j]
    ensures multiset(ys)[ys[i]] >= 2
  {
    assert ys == ys[..i] + [ys[i]] + ys[i + 1..j] + [ys[j]] + ys[j + 1..];
  }

  lemma OnceInMultiset<T>(xs: seq<T>, x: T)
    requires x in xs && Distinct(xs)
    ensures multiset(xs)[x] == 1
  {
    var a :| 0 <= a < |xs| && xs[a] == x;
    assert xs == xs[..a] + [xs[a]] + xs[a + 1..];
    assert xs[a] !in xs[..a] && xs[a] !in xs[a + 1..];
  }

  /** Rearranging keeps distinct elements distinct. */
  lemma DistinctPermuted<T>(xs: seq<T>, ys: seq<T>)
    requires Distinct(xs) && multiset(xs) == multiset(ys)
    ensures Distinct(ys)
  {
    forall i, j | 0 <= i < j < |ys| ensures ys[i] != ys[j] {
      if ys[i] == ys[j] {
        TwiceInMultiset(ys, i, j);
        assert ys[i] in multiset(xs);
        OnceInMultiset(xs, ys[i]);
        assert false;
      }
    }
  }

  lemma SubsetSize<T>(a: set<T>, b: set<T>)
    requires a <= b
    ensures |a| <= |b|
  {
    assert b == a + (b - a);
  }

  function Elements<T(==)>(xs: seq<T>): set<T> {
    set x | x in xs
  }

  lemma ElementsAppend<T>(xs: seq<T>, x: T)
    ensures Elements(xs + [x]) == Elements(xs) + {x}
  {
  }

  lemma {:induction false} FlattenMap<A, B>(f: A -> B, shards: seq<seq<A>>, mapped: seq<seq<B>>)
    requires |mapped| == |shards| && forall s | 0 <= s < |shards| :: mapped[s] == Map(f, shards[s])
    ensures Flatten(mapped) == Map(f, Flatten(shards))
  {
    if shards != [] {
      var m := |shards| - 1;
      FlattenMap(f, shards[..m], mapped[..m]);
    }
  }

  lemma {:induction false} FlattenConcat<T>(a: seq<seq<T>>, b: seq<seq<T>>)
    ensures Flatten(a + b) == Flatten(a) + Flatten(b)
  {
    if b == [] {
      assert a + b == a;
    } else {
      var front := b[..|b| - 1];
      assert (a + b)[..|a + b| - 1] == a + front;
      FlattenConcat(a, front);
    }
  }

  lemma FlattenCons<T>(first: seq<T>, rest: seq<seq<T>>)
    ensures Flatten([first] + rest) == first + Flatten(rest)
  {
    assert [first][..0] == [];
    FlattenConcat([first], rest);
  }

  /** Growing one shard grows the whole by the same element. */
  lemma FlattenUpdate<T>(shards: seq<seq<T>>, k: nat, x: T)
    requires k < |shards|
    ensures multiset(Flatten(shards[k := shards[k] + [x]])) == multiset(Flatten(shards)) + multiset{x}
  {
    var after := shards[k := shards[k] + [x]];
    FlattenReplace(after, k, shards[k], multiset{x});
    assert after[k := shards[k]] == shards;
  }

  lemma {:induction false} FlattenMember<T>(shards: seq<seq<T>>, x: T) returns (s: nat, i: nat)
    requires x in Flatten(shards)
    ensures s < |shards| && i < |shards[s]| && shards[s][i] == x
  {
    var m := |shards| - 1;
    if x in shards[m] {
      i :| 0 <= i < |shards[m]| && shards[m][i] == x;
      s := m;
    } else {
      s, i := FlattenMember(shards[..m], x);
    }
  }

  lemma {:induction false} FlattenContains<T>(shards: seq<seq<T>>, s: nat)
    requires s < |shards|
    ensures forall x | x in shards[s] :: x in Flatten(shards)
  {
    var m := |shards| - 1;
    if s < m {
      FlattenContains(shards[..m], s);
    }
  }

  /** Swapping out one shard swaps out its jobs. */
  lemma {:induction false} FlattenReplace<T>(shards: seq<seq<T>>, s: nat, shard: seq<T>, out: multiset<T>)
    requires s < |shards| && multiset(shards[s]) == multiset(shard) + out
    ensures multiset(Flatten(shards)) == multiset(Flatten(shards[s := shard])) + out
  {
    var m := |shards| - 1;
    var after := shards[s := shard];
    if s == m {
      assert after[..m] == shards[..m];
    } else {
      assert after[..m] == shards[..m][s := shard];
      FlattenReplace(shards[..m], s, shard, out);
    }
  }

  lemma {:induction false} FlattenEmpties<T>(shards: seq<seq<T>>)
    requires forall s | 0 <= s < |shards| :: shards[s] == []
    ensures Flatten(shards) == []
  {
    if shards != [] {
      FlattenEmpties(shards[..|shards| - 1]);
    }
  }

}

/** Orders, and the library sort of the modelled programs.

    JavaScript's `Array.prototype.sort` and Python's `sorted` are both stable, so an
    insertion sort that puts an element before its equals stands for either of them. */
module Orders {
  import opened Sequences

  ghost predicate Total<T(!new)>(le: (T, T) -> bool) {
    forall a, b :: le(a, b) || le(b, a)
  }

  ghost predicate Transitive<T(!new)>(le: (T, T) -> bool) {
    forall a, b, c :: le(a, b) && le(b, c) ==> le(a, c)
  }

  ghost predicate Antisymmetric<T(!new)>(le: (T, T) -> bool) {
    forall a, b :: le(a, b) && le(b, a) ==> a == b
  }

  ghost predicate TotalPreorder<T(!new)>(le: (T, T) -> bool) {
    Total(le) && Transitive(le)
  }

  ghost predicate TotalOrder<T(!new)>(le: (T, T) -> bool) {
    TotalPreorder(le) && Antisymmetric(le)
  }

  ghost predicate SortedBy<T>(xs: seq<T>, le: (T, T) -> bool) {
    forall i, j | 0 <= i < j < |xs| :: le(xs[i], xs[j])
  }

  function Insert<T>(x: T, xs: seq<T>, le: (T, T) -> bool): seq<T> {
    if xs == [] || le(x, xs[0]) then [x] + xs else [xs[0]] + Insert(x, xs[1..], le)
  }

  function Sort<T>(xs: seq<T>, le: (T, T) -> bool): seq<T> {
    if xs == [] then [] else Insert(xs[0], Sort(xs[1..], le), le)
  }

  lemma {:induction false} InsertPermutes<T>(x: T, xs: seq<T>, le: (T, T) -> bool)
    ensures multiset(Insert(x, xs, le)) == multiset{x} + multiset(xs)
    ensures |Insert(x, xs, le)| == |xs| + 1
  {
    if xs != [] && !le(x, xs[0]) {
      InsertPermutes(x, xs[1..], le);
      HeadAndTail(xs);
    }
  }

  lemma {:induction false} InsertSorts<T(!new)>(x: T, xs: seq<T>, le: (T, T) -> bool)
    requires TotalPreorder(le) && SortedBy(xs, le)
    ensures SortedBy(Insert(x, xs, le), le)
  {
    if xs == [] || le(x, xs[0]) {
    } else {
      InsertSorts(x, xs[1..], le);
      var rest := Insert(x, xs[1..], le);
      InsertPermutes(x, xs[1..], le);
      forall j | 0 <= j < |rest| ensures le(xs[0], rest[j]) {
        assert rest[j] in multiset(rest);
        if rest[j] != x {
          assert rest[j] in multiset(xs[1..]);
          assert rest[j] in xs[1..];
        }
      }
    }
  }

  /** Sorting loses and duplicates nothing. */
  lemma {:induction false} SortPermutes<T>(xs: seq<T>, le: (T, T) -> bool)
    ensures multiset(Sort(xs, le)) == multiset(xs)
    ensures |Sort(xs, le)| == |xs|
  {
    if xs != [] {
      SortPermutes(xs[1..], le);
      InsertPermutes(xs[0], Sort(xs[1..], le), le);
      HeadAndTail(xs);
    }
  }

  lemma {:induction false} SortSorts<T(!new)>(xs: seq<T>, le: (T, T) -> bool)
    requires TotalPreorder(le)
    ensures SortedBy(Sort(xs, le), le)
  {
    if xs != [] {
      SortSorts(xs[1..], le);
      InsertSorts(xs[0], Sort(xs[1..], le), le);
    }
  }

  /** Under a total order a sorted arrangement is determined by its elements. */
  lemma {:induction false} SortedUnique<T(!new)>(xs: seq<T>, ys: seq<T>, le: (T, T) -> bool)
    requires TotalOrder(le)
    requires SortedBy(xs, le) && SortedBy(ys, le) && multiset(xs) == multiset(ys)
    ensures xs == ys
  {
    assert |xs| == |multiset(xs)| == |multiset(ys)| == |ys|;
    if xs != [] {
      assert xs[0] in multiset(ys) && ys[0] in multiset(xs);
      assert le(xs[0], ys[0]) && le(ys[0], xs[0]);
      HeadAndTail(xs);
      HeadAndTail(ys);
      CancelOne(multiset(xs[1..]), multiset(ys[1..]), xs[0]);
      SortedUnique(xs[1..], ys[1..], le);
    }
  }

  /** The order JavaScript's `<` puts on strings. */
  predicate StringLe(a: string, b: string) {
    a == [] || (b != [] && (a[0] < b[0] || (a[0] == b[0] && StringLe(a[1..], b[1..]))))
  }

  lemma {:induction false} StringLeTotal(a: string, b: string)
    ensures StringLe(a, b) || StringLe(b, a)
    ensures StringLe(a, b) && StringLe(b, a) ==> a == b
  {
    if a != [] && b != [] && a[0] == b[0] {
      StringLeTotal(a[1..], b[1..]);
      assert a == [a[0]] + a[1..] && b == [b[0]] + b[1..];
    }
  }

  lemma {:induction false} StringLeTransitive(a: string, b: string, c: string)
    requires StringLe(a, b) && StringLe(b, c)
    ensures StringLe(a, c)
  {
    if a != [] && a[0] == b[0] && b[0] == c[0] {
      StringLeTransitive(a[1..], b[1..], c[1..]);
    }
  }

  /** Dictionary order: a prefix comes first, and otherwise the first difference decides. */
  lemma {:induction false} StringLeIff(a: string, b: string)
    ensures StringLe(a, b) <==>
            a <= b || exists i | 0 <= i < |a| && i < |b| :: a[..i] == b[..i] && a[i] < b[i]
  {
    if a != [] && b != [] && a[0] == b[0] {
      StringLeIff(a[1..], b[1..]);
      assert a == [a[0]] + a[1..] && b == [b[0]] + b[1..];
      if i :| 0 <= i < |a[1..]| && i < |b[1..]| && a[1..][..i] == b[1..][..i] && a[1..][i] < b[1..][i] {
        assert a[..i + 1] == [a[0]] + a[1..][..i] && b[..i + 1] == [b[0]] + b[1..][..i];
        assert a[i + 1] < b[i + 1];
      }
      if i :| 0 <= i < |a| && i < |b| && a[..i] == b[..i] && a[i] < b[i] {
        assert a[1..][..i - 1] == a[..i][1..] && b[1..][..i - 1] == b[..i][1..];
        assert a[1..][i - 1] < b[1..][i - 1];
      }
    } else if a != [] && b != [] {
      assert a[..0] == b[..0];
    }
  }

  lemma StringOrder()
    ensures TotalOrder(StringLe)
  {
    forall a, b ensures StringLe(a, b) || StringLe(b, a) {
      StringLeTotal(a, b);
    }
    forall a, b | StringLe(a, b) && StringLe(b, a) ensures a == b {
      StringLeTotal(a, b);
    }
    forall a, b, c | StringLe(a, b) && StringLe(b, c) ensures StringLe(a, c) {
      StringLeTransitive(a, b, c);
    }
  }
}

/** JavaScript's `Map`: a dictionary that remembers the order its keys first arrived in. */
module OrderedMaps {
  import opened Sequences

  datatype OrderedMap<K(==), V> = OrderedMap(keys: seq<K>, at: map<K, V>) {

    ghost predicate Valid() {
      Distinct(keys) && (forall k | k in keys :: k in at) && (forall k | k in at :: k in keys)
    }

    function Set(k: K, v: V): OrderedMap<K, V> {
      OrderedMap(if k in at then keys else keys + [k], at[k := v])
    }

    function GetOr(k: K, default: V): V {
      if k in at then at[k] else default
    }

    lemma SetValid(k: K, v: V)
      requires Valid()
      ensures Set(k, v).Valid()
    {
    }

    function Values(): (vs: seq<V>)
      requires Valid()
      ensures |vs| == |keys| && forall i | 0 <= i < |keys| :: vs[i] == at[keys[i]]
    {
      seq(|keys|, i requires 0 <= i < |keys| => at[keys[i]])
    }
  }
}
