/** `hydrabrain/llm.py`: one text generator over several providers, with retries and fall-through. */
module Llm {
  import opened Results

  /** What one call to a provider comes back with; `Transient` stands for the retryable status codes. */
  datatype Reply = Text(text: string) | SdkMissing | Transient(error: string) | Fatal(error: string)

  /** `reply(k)` is the answer to the provider's `k`-th call of this run. */
  datatype Provider = Provider(name: string, configured: bool, reply: nat -> Reply)

  datatype Failure =
    | NoKey
    | Unavailable(tried: seq<string>, skipped: seq<string>)
    | ProviderError(name: string, error: string)
    | NothingToRaise(name: string)

  /** How a provider's retry loop ends. */
  datatype Ending = Answered(text: string) | Missing | Exhausted(error: string) | Rejected(error: string) | NoAttempt

  datatype Event = Call(provider: nat) | Sleep(provider: nat, seconds: real)

  function Pow2(n: nat): nat {
    if n == 0 then 1 else 2 * Pow2(n - 1)
  }

  /** Calls until the first answer that is not transient, and at most `attempts`, given `k` transient ones. */
  function CallsFrom(p: Provider, attempts: nat, k: nat): nat
    requires k <= attempts
    decreases attempts - k
  {
    if k == attempts then attempts
    else if p.reply(k).Transient? then CallsFrom(p, attempts, k + 1)
    else k + 1
  }

  function Calls(p: Provider, attempts: nat): nat {
    CallsFrom(p, attempts, 0)
  }

  function EndingOf(r: Reply): Ending {
    match r
    case Text(text) => Answered(text)
    case SdkMissing => Missing
    case Transient(error) => Exhausted(error)
    case Fatal(error) => Rejected(error)
  }

  function Ends(p: Provider, attempts: nat): Ending {
    if Calls(p, attempts) == 0 then NoAttempt else EndingOf(p.reply(Calls(p, attempts) - 1))
  }

  /** `n` calls with the growing pauses between them. */
  function Attempts(provider: nat, base: real, n: nat): seq<Event> {
    if n == 0 then []
    else if n == 1 then [Call(provider)]
    else Attempts(provider, base, n - 1) + [Sleep(provider, base * Pow2(n - 2) as real), Call(provider)]
  }

  /** The result once provider `p`'s retry loop has ended this way; None when the next one gets its turn. */
  function Decision(p: Provider, end: Ending): Option<Result<string, Failure>> {
    match end
    case Answered(text) => Some(Ok(text))
    case Rejected(error) => Some(Err(ProviderError(p.name, error)))
    case NoAttempt => Some(Err(NothingToRaise(p.name)))
    case _ => None
  }

  /** Where the loop over the providers stands, and its result once there is one. */
  datatype Progress = Progress(trace: seq<Event>, tried: seq<string>, skipped: seq<string>,
                               done: Option<Result<string, Failure>>)

  function AfterProvider(p: Provider, i: nat, attempts: nat, base: real, st: Progress): Progress {
    if st.done.Some? || !p.configured then st
    else
      var done := Decision(p, Ends(p, attempts));
      Progress(st.trace + Attempts(i, base, Calls(p, attempts)), st.tried + [p.name],
               if done.Some? then st.skipped else st.skipped + [p.name], done)
  }

  function AfterProviders(ps: seq<Provider>, attempts: nat, base: real): Progress {
    if ps == [] then Progress([], [], [], None)
    else
      var i := |ps| - 1;
      AfterProvider(ps[i], i, attempts, base, AfterProviders(ps[..i], attempts, base))
  }

  function Conclude(st: Progress): Result<string, Failure> {
    if st.done.Some? then st.done.value
    else if st.tried != [] then Err(Unavailable(st.tried, st.skipped))
    else Err(NoKey)
  }

  /** A negative number of attempts runs no attempt, like zero. */
  function Budget(attempts: int): nat {
    if attempts < 0 then 0 else attempts
  }

  class Client {
    const attempts: int
    const base: real
    var trace: seq<Event>

    constructor (attempts: int, base: real)
      ensures this.attempts == attempts && this.base == base && trace == []
    {
      this.attempts := attempts;
      this.base := base;
      trace := [];
    }

    method CallWithRetries(p: Provider, i: nat) returns (end: Ending)
      modifies this`trace
      ensures trace == old(trace) + Attempts(i, base, Calls(p, Budget(attempts)))
      ensures end == Ends(p, Budget(attempts))
    {
      var attempt := 0;
      while attempt < attempts
        invariant 0 <= attempt <= Budget(attempts)
        invariant Calls(p, Budget(attempts)) == CallsFrom(p, Budget(attempts), attempt)
        invariant attempt < attempts || attempt == 0
        invariant trace + [Call(i)] == old(trace) + Attempts(i, base, attempt + 1)
      {
        trace := trace + [Call(i)];
        var r := p.reply(attempt);
        if !r.Transient? || attempt == attempts - 1 {
          return EndingOf(r);
        }
        var pause := Sleep(i, base * Pow2(attempt) as real);
        trace := trace + [pause];
        assert Attempts(i, base, attempt + 2) == Attempts(i, base, attempt + 1) + [pause, Call(i)];
        assert trace + [Call(i)] == old(trace) + Attempts(i, base, attempt + 2);
        attempt := attempt + 1;
      }
      assert (trace + [Call(i)])[..|trace|] == trace;
      assert (old(trace) + [Call(i)])[..|old(trace)|] == old(trace);
      assert old(trace) + [] == old(trace);
      return NoAttempt;
    }

    method Generate(ps: seq<Provider>) returns (r: Result<string, Failure>)
      modifies this`trace
      ensures trace == old(trace) + AfterProviders(ps, Budget(attempts), base).trace
      ensures r == Conclude(AfterProviders(ps, Budget(attempts), base))
    {
      var tried, skipped := [], [];
      ghost var n := Budget(attempts);
      assert ps[..|ps|] == ps;
      for i := 0 to |ps|
        invariant AfterProviders(ps[..i], n, base).done.None?
        invariant Stands(AfterProviders(ps[..i], n, base), old(trace), trace, tried, skipped)
      {
        var p := ps[i];
        ghost var st := AfterProviders(ps[..i], n, base);
        assert ps[..i + 1][..i] == ps[..i];
        if p.configured && Decision(p, Ends(p, n)).Some? {
          TurnDecides(ps, n, base, i, old(trace));
        } else {
          TurnPasses(p, i, n, base, st, old(trace));
        }
        if !p.configured {
          continue;
        }
        tried := tried + [p.name];
        var end := CallWithRetries(p, i);
        match end {
          case Answered(text) =>
            return Ok(text);
          case Rejected(error) =>
            return Err(ProviderError(p.name, error));
          case NoAttempt =>
            return Err(NothingToRaise(p.name));
          case Missing =>
            skipped := skipped + [p.name];
          case Exhausted(_) =>
            skipped := skipped + [p.name];
        }
      }
      if tried != [] {
        return Err(Unavailable(tried, skipped));
      }
      return Err(NoKey);
    }
  }

  /** The variables of the provider loop stand where `st` says, on top of the trace at the start. */
  ghost predicate Stands(st: Progress, before: seq<Event>, trace: seq<Event>, tried: seq<string>, skipped: seq<string>) {
    trace == before + st.trace && tried == st.tried && skipped == st.skipped
  }

  /** A turn after which the loop goes on. */
  lemma TurnPasses(p: Provider, i: nat, attempts: nat, base: real, st: Progress, before: seq<Event>)
    requires st.done.None? && (p.configured ==> Decision(p, Ends(p, attempts)).None?)
    ensures var next, own := AfterProvider(p, i, attempts, base, st), Attempts(i, base, Calls(p, attempts));
            next.done.None?
            && if p.configured then Stands(next, before, before + st.trace + own, st.tried + [p.name], st.skipped + [p.name])
               else next == st
  {
    assert before + st.trace + Attempts(i, base, Calls(p, attempts)) == before + (st.trace + Attempts(i, base, Calls(p, attempts)));
  }

  /** A turn that decides the run. */
  lemma TurnDecides(ps: seq<Provider>, attempts: nat, base: real, i: nat, before: seq<Event>)
    requires i < |ps| && AfterProviders(ps[..i], attempts, base).done.None?
    requires ps[i].configured && Decision(ps[i], Ends(ps[i], attempts)).Some?
    ensures var st, all := AfterProviders(ps[..i], attempts, base), AfterProviders(ps, attempts, base);
            && Conclude(all) == Decision(ps[i], Ends(ps[i], attempts)).value
            && before + all.trace == before + st.trace + Attempts(i, base, Calls(ps[i], attempts))
  {
    assert ps[..i + 1][..i] == ps[..i];
    DoneStays(ps, attempts, base, i + 1);
    var st, own := AfterProviders(ps[..i], attempts, base), Attempts(i, base, Calls(ps[i], attempts));
    assert before + (st.trace + own) == before + st.trace + own;
  }

  lemma {:induction false} DoneStays(ps: seq<Provider>, attempts: nat, base: real, i: nat)
    requires i <= |ps| && AfterProviders(ps[..i], attempts, base).done.Some?
    ensures AfterProviders(ps, attempts, base) == AfterProviders(ps[..i], attempts, base)
  {
    if i == |ps| {
      assert ps[..i] == ps;
    } else {
      assert ps[..|ps| - 1][..i] == ps[..i];
      DoneStays(ps[..|ps| - 1], attempts, base, i);
    }
  }

  // ---- One provider -----------------------------------------------------------------------------

  ghost predicate TransientUpTo(p: Provider, n: nat) {
    forall k: nat | k < n :: p.reply(k).Transient?
  }

  /** The loop makes the least number of calls that ends in a final answer, and never more than allowed. */
  lemma {:induction false} CallsMeaning(p: Provider, attempts: nat, k: nat)
    requires k <= attempts && TransientUpTo(p, k)
    ensures var n := CallsFrom(p, attempts, k);
            && n <= attempts
            && (n > 0 ==> TransientUpTo(p, n - 1))
            && (n < attempts ==> n > 0 && !p.reply(n - 1).Transient?)
    decreases attempts - k
  {
    if k < attempts && p.reply(k).Transient? {
      CallsMeaning(p, attempts, k + 1);
    }
  }

  /** After `m` transient answers the call that ends the loop is the first one that is not transient. */
  lemma {:induction false} FirstFinal(p: Provider, attempts: nat, m: nat, k: nat)
    requires m <= k < attempts && TransientUpTo(p, k) && !p.reply(k).Transient?
    ensures CallsFrom(p, attempts, m) == k + 1
    decreases k - m
  {
    if m < k {
      FirstFinal(p, attempts, m + 1, k);
    }
  }

  /** The provider hands over to the next one: its SDK is missing, or every allowed attempt was transient. */
  ghost predicate HandsOver(p: Provider, attempts: nat) {
    && attempts > 0
    && (TransientUpTo(p, attempts) || exists k: nat | k < attempts :: p.reply(k).SdkMissing? && TransientUpTo(p, k))
  }

  lemma HandsOverIff(p: Provider, attempts: nat)
    ensures HandsOver(p, attempts) <==> (Ends(p, attempts).Missing? || Ends(p, attempts).Exhausted?)
    ensures Ends(p, attempts).Exhausted? <==> attempts > 0 && TransientUpTo(p, attempts)
    ensures Ends(p, attempts).Exhausted? ==> Calls(p, attempts) == attempts
  {
    CallsMeaning(p, attempts, 0);
    var n := Calls(p, attempts);
    if n > 0 {
      if p.reply(n - 1).Transient? {
        assert TransientUpTo(p, attempts);
      } else if exists k: nat | k < attempts :: p.reply(k).SdkMissing? && TransientUpTo(p, k) {
        var k: nat :| k < attempts && p.reply(k).SdkMissing? && TransientUpTo(p, k);
        FirstFinal(p, attempts, 0, k);
      }
    }
  }

  function Slept(trace: seq<Event>, i: nat): real {
    if trace == [] then 0.0
    else
      var e := trace[|trace| - 1];
      Slept(trace[..|trace| - 1], i) + if e.Sleep? && e.provider == i then e.seconds else 0.0
  }

  function CallCount(trace: seq<Event>, i: nat): nat {
    if trace == [] then 0
    else CallCount(trace[..|trace| - 1], i) + if trace[|trace| - 1] == Call(i) then 1 else 0
  }

  lemma {:induction false} TracesAdd(a: seq<Event>, b: seq<Event>, i: nat)
    ensures Slept(a + b, i) == Slept(a, i) + Slept(b, i)
    ensures CallCount(a + b, i) == CallCount(a, i) + CallCount(b, i)
  {
    if b == [] {
      assert a + b == a;
    } else {
      assert (a + b)[..|a + b| - 1] == a + b[..|b| - 1];
      TracesAdd(a, b[..|b| - 1], i);
    }
  }

  lemma TwoEvents(s: Event, c: Event, i: nat)
    requires s.Sleep? && c.Call?
    ensures Slept([s, c], i) == if s.provider == i then s.seconds else 0.0
    ensures CallCount([s, c], i) == if c.provider == i then 1 else 0
  {
    assert [s, c][..|[s, c]| - 1] == [s];
    assert [s][..|[s]| - 1] == [];
    assert Slept([s], i) == if s.provider == i then s.seconds else 0.0;
    assert CallCount([s], i) == 0;
  }

  /** `n` calls of one provider sleep `base * (2^(n-1) - 1)` in all, and touch no other provider. */
  lemma {:induction false} BackoffTotal(i: nat, base: real, n: nat, j: nat)
    ensures CallCount(Attempts(i, base, n), j) == if i == j then n else 0
    ensures i != j || n == 0 ==> Slept(Attempts(i, base, n), j) == 0.0
    ensures i == j && n > 0 ==> Slept(Attempts(i, base, n), j) == base * (Pow2(n - 1) as real - 1.0)
  {
    if n == 1 {
      assert [Call(i)][..0] == [];
    } else if n > 1 {
      BackoffTotal(i, base, n - 1, j);
      var pause := Sleep(i, base * Pow2(n - 2) as real);
      TwoEvents(pause, Call(i), j);
      TracesAdd(Attempts(i, base, n - 1), [pause, Call(i)], j);
      Double(base, Pow2(n - 2) as real);
      assert Pow2(n - 1) as real == 2.0 * Pow2(n - 2) as real;
    }
  }

  lemma Double(base: real, p: real)
    ensures base * (p - 1.0) + base * p == base * (2.0 * p - 1.0)
  {
  }

  /** Call, pause, call, pause, ..., call: the k-th pause is base * 2^k. */
  ghost predicate Alternates(trace: seq<Event>, i: nat, base: real, n: nat) {
    && |trace| == (if n == 0 then 0 else 2 * n - 1)
    && forall x | 0 <= x < |trace| ::
         trace[x] == if x % 2 == 0 then Call(i) else Sleep(i, base * Pow2(x / 2) as real)
  }

  lemma {:induction false} AttemptsAlternate(i: nat, base: real, n: nat)
    ensures Alternates(Attempts(i, base, n), i, base, n)
  {
    if n > 1 {
      AttemptsAlternate(i, base, n - 1);
      AlternatesOn(Attempts(i, base, n - 1), i, base, n - 1);
    }
  }

  lemma AlternatesOn(trace: seq<Event>, i: nat, base: real, n: nat)
    requires n > 0 && Alternates(trace, i, base, n)
    ensures Alternates(trace + [Sleep(i, base * Pow2(n - 1) as real), Call(i)], i, base, n + 1)
  {
    var pause := Sleep(i, base * Pow2(n - 1) as real);
    var all := trace + [pause, Call(i)];
    assert all[2 * n - 1] == pause && (2 * n - 1) % 2 == 1 && (2 * n - 1) / 2 == n - 1;
    assert all[2 * n] == Call(i) && (2 * n) % 2 == 0;
  }

  // ---- The whole run ----------------------------------------------------------------------------

  /** The loop arrives at provider `j`: it is configured and every configured one before it handed over. */
  ghost predicate Reached(ps: seq<Provider>, attempts: nat, j: nat)
    requires j < |ps|
  {
    ps[j].configured && forall i | 0 <= i < j && ps[i].configured :: HandsOver(ps[i], attempts)
  }

  lemma {:induction false} OpenIffAllHandedOver(ps: seq<Provider>, attempts: nat, base: real)
    ensures AfterProviders(ps, attempts, base).done.None?
            <==> forall i | 0 <= i < |ps| && ps[i].configured :: HandsOver(ps[i], attempts)
  {
    if ps != [] {
      var m := |ps| - 1;
      OpenIffAllHandedOver(ps[..m], attempts, base);
      HandsOverIff(ps[m], attempts);
      assert forall i | 0 <= i < m :: ps[..m][i] == ps[i];
    }
  }

  lemma ReachedIffOpen(ps: seq<Provider>, attempts: nat, base: real, j: nat)
    requires j < |ps|
    ensures Reached(ps, attempts, j) <==> Plays(ps, attempts, base, j)
  {
    OpenIffAllHandedOver(ps[..j], attempts, base);
    assert forall i | 0 <= i < j :: ps[..j][i] == ps[i];
  }

  /** No result yet when the loop comes to configured provider `j`. */
  predicate Plays(ps: seq<Provider>, attempts: nat, base: real, j: nat) {
    j < |ps| && ps[j].configured && AfterProviders(ps[..j], attempts, base).done.None?
  }

  /** The events of provider `j`'s turn. */
  function Turn(ps: seq<Provider>, attempts: nat, base: real, j: nat): seq<Event> {
    if Plays(ps, attempts, base, j) then Attempts(j, base, Calls(ps[j], attempts)) else []
  }

  lemma TraceGrows(ps: seq<Provider>, attempts: nat, base: real)
    requires ps != []
    ensures var m := |ps| - 1;
            AfterProviders(ps, attempts, base).trace
            == AfterProviders(ps[..m], attempts, base).trace + Turn(ps, attempts, base, m)
  {
  }

  lemma OthersQuiet(ps: seq<Provider>, attempts: nat, base: real, i: nat, j: nat)
    requires i != j
    ensures CallCount(Turn(ps, attempts, base, i), j) == 0 && Slept(Turn(ps, attempts, base, i), j) == 0.0
  {
    if Plays(ps, attempts, base, i) {
      BackoffTotal(i, base, Calls(ps[i], attempts), j);
    }
  }

  lemma {:induction false} CallsPerPlayer(ps: seq<Provider>, attempts: nat, base: real, j: nat)
    ensures var trace, own := AfterProviders(ps, attempts, base).trace, Turn(ps, attempts, base, j);
            CallCount(trace, j) == CallCount(own, j) && Slept(trace, j) == Slept(own, j)
  {
    if ps != [] {
      var m := |ps| - 1;
      CallsPerPlayer(ps[..m], attempts, base, j);
      if j < m {
        assert ps[..m][..j] == ps[..j];
      }
      TraceGrows(ps, attempts, base);
      TracesAdd(AfterProviders(ps[..m], attempts, base).trace, Turn(ps, attempts, base, m), j);
      if j != m {
        OthersQuiet(ps, attempts, base, m, j);
      }
    }
  }

  /** The turns follow the providers' order, a pause is followed by a call of the same provider, and no two calls of
      one provider stand side by side. */
  ghost predicate Paced(trace: seq<Event>) {
    && (forall x, y | 0 <= x < y < |trace| :: trace[x].provider <= trace[y].provider)
    && (forall x | 0 <= x < |trace| && trace[x].Sleep? :: x + 1 < |trace| && trace[x + 1] == Call(trace[x].provider))
    && forall x | 0 < x < |trace| && trace[x].Call? && trace[x - 1].Call? :: trace[x - 1].provider < trace[x].provider
  }

  lemma OwnPaced(i: nat, base: real, n: nat)
    ensures Paced(Attempts(i, base, n)) && forall x | 0 <= x < |Attempts(i, base, n)| :: Attempts(i, base, n)[x].provider == i
  {
    AttemptsAlternate(i, base, n);
  }

  lemma PacedJoins(a: seq<Event>, b: seq<Event>, i: nat)
    requires Paced(a) && Paced(b)
    requires (forall x | 0 <= x < |a| :: a[x].provider < i) && forall x | 0 <= x < |b| :: b[x].provider == i
    ensures Paced(a + b)
  {
    var all := a + b;
    assert forall x | |a| <= x < |all| :: all[x] == b[x - |a|];
    forall x | 0 <= x < |all| && all[x].Sleep? ensures x + 1 < |all| && all[x + 1] == Call(all[x].provider) {
      if x >= |a| {
        assert b[x - |a|].Sleep?;
      }
    }
  }

  /** Between any two calls of one provider there is a pause, and no pause is left without the call after it. */
  lemma {:induction false} RunIsPaced(ps: seq<Provider>, attempts: nat, base: real)
    ensures var trace := AfterProviders(ps, attempts, base).trace;
            Paced(trace) && forall x | 0 <= x < |trace| :: trace[x].provider < |ps|
  {
    if ps != [] {
      var m := |ps| - 1;
      RunIsPaced(ps[..m], attempts, base);
      OwnPaced(m, base, Calls(ps[m], attempts));
      PacedJoins(AfterProviders(ps[..m], attempts, base).trace, Turn(ps, attempts, base, m), m);
      TraceGrows(ps, attempts, base);
    }
  }

  /** A reached provider gets exactly its own retry loop; any other gets no call and no pause. */
  lemma CallsPerProvider(ps: seq<Provider>, attempts: nat, base: real, j: nat)
    requires j < |ps|
    ensures var trace := AfterProviders(ps, attempts, base).trace;
            if Reached(ps, attempts, j)
            then CallCount(trace, j) == Calls(ps[j], attempts)
                 && Slept(trace, j) == Slept(Attempts(j, base, Calls(ps[j], attempts)), j)
            else CallCount(trace, j) == 0 && Slept(trace, j) == 0.0
  {
    ReachedIffOpen(ps, attempts, base, j);
    CallsPerPlayer(ps, attempts, base, j);
    BackoffTotal(j, base, Calls(ps[j], attempts), j);
  }

  /** A provider is called only after every configured one before it was SDK-missing or used all its attempts on
      transient errors; it is called at most `attempts` times, and when it is exhausted it has slept
      `base * (2^(attempts-1) - 1)`. */
  lemma ProviderDiscipline(ps: seq<Provider>, attempts: nat, base: real, j: nat)
    requires j < |ps|
    ensures var trace := AfterProviders(ps, attempts, base).trace;
            && (CallCount(trace, j) > 0 <==> attempts > 0 && Reached(ps, attempts, j))
            && CallCount(trace, j) <= attempts
            && (attempts > 0 && Reached(ps, attempts, j) && TransientUpTo(ps[j], attempts) ==>
                  CallCount(trace, j) == attempts && Slept(trace, j) == base * (Pow2(attempts - 1) as real - 1.0))
  {
    CallsPerProvider(ps, attempts, base, j);
    CallsMeaning(ps[j], attempts, 0);
    HandsOverIff(ps[j], attempts);
    BackoffTotal(j, base, Calls(ps[j], attempts), j);
  }

  function Labels(ps: seq<Provider>): seq<string> {
    if ps == [] then []
    else Labels(ps[..|ps| - 1]) + if ps[|ps| - 1].configured then [ps[|ps| - 1].name] else []
  }

  lemma {:induction false} OpenRunsListAll(ps: seq<Provider>, attempts: nat, base: real)
    requires forall i | 0 <= i < |ps| && ps[i].configured :: HandsOver(ps[i], attempts)
    ensures var st := AfterProviders(ps, attempts, base);
            st.done.None? && st.tried == Labels(ps) && st.skipped == Labels(ps)
  {
    if ps != [] {
      var m := |ps| - 1;
      assert forall i | 0 <= i < m :: ps[..m][i] == ps[i];
      OpenRunsListAll(ps[..m], attempts, base);
      HandsOverIff(ps[m], attempts);
    }
  }

  /** When every configured provider hands over, the error names them all; with none configured it asks for a key. */
  lemma AllHandOver(ps: seq<Provider>, attempts: nat, base: real)
    requires forall i | 0 <= i < |ps| && ps[i].configured :: HandsOver(ps[i], attempts)
    ensures Conclude(AfterProviders(ps, attempts, base))
            == Err(if Labels(ps) == [] then NoKey else Unavailable(Labels(ps), Labels(ps)))
  {
    OpenRunsListAll(ps, attempts, base);
  }

  /** What a final answer makes of the whole run. */
  function Final(p: Provider, r: Reply): Result<string, Failure>
    requires r.Text? || r.Fatal?
  {
    if r.Text? then Ok(r.text) else Err(ProviderError(p.name, r.error))
  }

  lemma DeciderEnds(ps: seq<Provider>, attempts: nat, base: real, j: nat)
    requires j < |ps| && Reached(ps, attempts, j) && !HandsOver(ps[j], attempts)
    ensures Conclude(AfterProviders(ps, attempts, base)) == Conclude(AfterProviders(ps[..j + 1], attempts, base))
    ensures Ends(ps[j], attempts).Answered? || Ends(ps[j], attempts).Rejected? || Ends(ps[j], attempts).NoAttempt?
    ensures Conclude(AfterProviders(ps, attempts, base))
            == Decision(ps[j], Ends(ps[j], attempts)).value
  {
    assert ps[..j + 1][..j] == ps[..j];
    ReachedIffOpen(ps, attempts, base, j);
    HandsOverIff(ps[j], attempts);
    DoneStays(ps, attempts, base, j + 1);
  }

  /** The first provider that does not hand over decides the result at its first final answer; providers
      after it play no part. A run allowed no attempts fails at the first configured provider. */
  lemma FirstDeciderWins(ps: seq<Provider>, attempts: nat, base: real, j: nat)
    requires j < |ps| && Reached(ps, attempts, j) && !HandsOver(ps[j], attempts)
    ensures Conclude(AfterProviders(ps, attempts, base)) == Conclude(AfterProviders(ps[..j + 1], attempts, base))
    ensures attempts == 0 ==> Conclude(AfterProviders(ps, attempts, base)) == Err(NothingToRaise(ps[j].name))
    ensures forall k: nat | k < attempts && TransientUpTo(ps[j], k) && !ps[j].reply(k).Transient? ::
              !ps[j].reply(k).SdkMissing? && Conclude(AfterProviders(ps, attempts, base)) == Final(ps[j], ps[j].reply(k))
  {
    DeciderEnds(ps, attempts, base, j);
    forall k: nat | k < attempts && TransientUpTo(ps[j], k) && !ps[j].reply(k).Transient?
      ensures Calls(ps[j], attempts) == k + 1
    {
      FirstFinal(ps[j], attempts, 0, k);
    }
  }

  lemma {:induction false} DecidedWithNothing(ps: seq<Provider>, attempts: nat, base: real)
    ensures var done := AfterProviders(ps, attempts, base).done;
            done.Some? ==> ((done.value.Err? && done.value.error.NothingToRaise?) <==> attempts == 0)
  {
    if ps != [] {
      var m := |ps| - 1;
      DecidedWithNothing(ps[..m], attempts, base);
      CallsMeaning(ps[m], attempts, 0);
    }
  }

  /** Exactly when the retry loop falls off its end: no attempt is allowed and some provider is configured. */
  lemma NothingToRaiseIff(ps: seq<Provider>, attempts: nat, base: real)
    ensures (exists name :: Conclude(AfterProviders(ps, attempts, base)) == Err(NothingToRaise(name)))
            <==> attempts == 0 && exists i | 0 <= i < |ps| :: ps[i].configured
  {
    var st := AfterProviders(ps, attempts, base);
    DecidedWithNothing(ps, attempts, base);
    OpenIffAllHandedOver(ps, attempts, base);
    if attempts == 0 && exists i | 0 <= i < |ps| :: ps[i].configured {
      assert !HandsOver(ps[0], 0);
      assert Conclude(st) == Err(NothingToRaise(st.done.value.error.name));
    }
  }
}
