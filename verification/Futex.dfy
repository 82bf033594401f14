/** The three-state futex mutex and the counter it protects, as an interleaving
    of atomic steps: any number of threads, any number of iterations, any scheduler.
    Steps are sequentially consistent. */
module Futex {
  import opened Arithmetic

  /** Where a worker stands: the atomic operation it performs next.
      `Head` is the loop test; `Cas` the fast path and `Xchg` the slow path of `lock`;
      `Wait` the call of futex_wait and `Asleep` its queue; `Load` and `Store` are the two
      halves of `shared++`; `Unlock` is the exchange of `unlock` and `Wake` its futex_wake. */
  datatype Pc = Head | Cas | Xchg | Wait | Asleep | Load | Store | Unlock | Wake | Done

  datatype Thread = Thread(pc: Pc, i: nat, tmp: int)

  datatype State = State(m: int, shared: int, threads: seq<Thread>)

  /** One choice of the scheduler. `Rouse(t, w)` is thread t's futex_wake taking w off the queue;
      `Spurious(w)` lets w's futex_wait return without a waker. */
  datatype Action = Run(t: nat) | Rouse(t: nat, w: nat) | Spurious(w: nat)

  // ---------- The program ----------

  function Init(T: nat): State {
    State(0, 0, seq(T, _ => Thread(Head, 0, 0)))
  }

  predicate At(s: State, t: nat, pc: Pc) {
    t < |s.threads| && s.threads[t].pc == pc
  }

  ghost predicate Enabled(s: State, a: Action) {
    match a
    case Run(t) =>
      && t < |s.threads| && s.threads[t].pc != Asleep && s.threads[t].pc != Done
      && (s.threads[t].pc == Wake ==> forall w :: !At(s, w, Asleep))
    case Rouse(t, w) => At(s, t, Wake) && At(s, w, Asleep)
    case Spurious(w) => At(s, w, Asleep)
  }

  function Put(s: State, t: nat, th: Thread): State
    requires t < |s.threads|
  {
    s.(threads := s.threads[t := th])
  }

  function Jump(s: State, t: nat, pc: Pc): State
    requires t < |s.threads|
  {
    Put(s, t, s.threads[t].(pc := pc))
  }

  /** The end of one iteration: `++i`, back to the loop test. */
  function Again(s: State, t: nat): State
    requires t < |s.threads|
  {
    Put(s, t, s.threads[t].(pc := Head, i := s.threads[t].i + 1))
  }

  ghost function Apply(N: nat, s: State, a: Action): State
    requires Enabled(s, a)
  {
    match a
    case Spurious(w) => Jump(s, w, Xchg)
    case Rouse(t, w) => Again(Jump(s, w, Xchg), t)
    case Run(t) =>
      var th := s.threads[t];
      match th.pc
      case Head => Jump(s, t, if th.i < N then Cas else Done)
      case Cas => if s.m == 0 then Jump(s, t, Load).(m := 1) else Jump(s, t, Xchg)
      case Xchg => Jump(s, t, if s.m != 0 then Wait else Load).(m := 2)
      case Wait => Jump(s, t, if s.m == 2 then Asleep else Xchg)
      case Load => Put(s, t, th.(pc := Store, tmp := s.shared))
      case Store => Jump(s, t, Unlock).(shared := th.tmp + 1)
      case Unlock => (if s.m == 2 then Jump(s, t, Wake) else Again(s, t)).(m := 0)
      case Wake => Again(s, t)
  }

  /** `run` is a schedule the program can follow from s. */
  ghost predicate Possible(N: nat, s: State, run: seq<Action>)
    decreases |run|
  {
    run == [] || (Enabled(s, run[0]) && Possible(N, Apply(N, s, run[0]), run[1..]))
  }

  ghost function Exec(N: nat, s: State, run: seq<Action>): State
    requires Possible(N, s, run)
    decreases |run|
  {
    if run == [] then s else Exec(N, Apply(N, s, run[0]), run[1..])
  }

  ghost predicate Reachable(T: nat, N: nat, s: State) {
    exists run :: Possible(N, Init(T), run) && Exec(N, Init(T), run) == s
  }

  // ---------- Counting threads ----------

  function Sum(f: Thread -> nat, ts: seq<Thread>): nat {
    if ts == [] then 0 else f(ts[0]) + Sum(f, ts[1..])
  }

  lemma {:induction false} SumUpdate(f: Thread -> nat, ts: seq<Thread>, t: nat, th: Thread)
    requires t < |ts|
    ensures Sum(f, ts[t := th]) == Sum(f, ts) - f(ts[t]) + f(th)
  {
    if t == 0 {
      assert ts[0 := th][1..] == ts[1..];
    } else {
      assert ts[t := th][1..] == ts[1..][t - 1 := th];
      SumUpdate(f, ts[1..], t - 1, th);
    }
  }

  lemma {:induction false} SumPositive(f: Thread -> nat, ts: seq<Thread>)
    ensures Sum(f, ts) > 0 <==> exists t :: 0 <= t < |ts| && f(ts[t]) > 0
  {
    if ts != [] {
      SumPositive(f, ts[1..]);
      if f(ts[0]) == 0 && Sum(f, ts[1..]) > 0 {
        var t :| 0 <= t < |ts[1..]| && f(ts[1..][t]) > 0;
        assert f(ts[t + 1]) > 0;
      }
      if t :| 0 <= t < |ts| && f(ts[t]) > 0 {
        assert t > 0 ==> ts[t] == ts[1..][t - 1];
      }
    }
  }

  lemma {:induction false} SumTwo(f: Thread -> nat, ts: seq<Thread>, t: nat, u: nat)
    requires t < u < |ts|
    ensures Sum(f, ts) >= f(ts[t]) + f(ts[u])
  {
    if t > 0 {
      SumTwo(f, ts[1..], t - 1, u - 1);
    } else {
      SumUpdate(f, ts[1..], u - 1, ts[u]);
      SumAtLeast(f, ts[1..], u - 1);
    }
  }

  lemma {:induction false} SumAtLeast(f: Thread -> nat, ts: seq<Thread>, t: nat)
    requires t < |ts|
    ensures Sum(f, ts) >= f(ts[t])
  {
    if t > 0 { SumAtLeast(f, ts[1..], t - 1); }
  }

  /** Raising the weights pointwise raises the sum by at least the rise at any one thread. */
  lemma {:induction false} SumGap(f: Thread -> nat, g: Thread -> nat, ts: seq<Thread>, t: nat)
    requires t < |ts| && forall th :: f(th) <= g(th)
    ensures Sum(g, ts) - Sum(f, ts) >= g(ts[t]) - f(ts[t])
  {
    if |ts| > 1 {
      SumGap(f, g, ts[1..], if t > 0 then t - 1 else 0);
    }
  }

  lemma {:induction false} SumConst(f: Thread -> nat, ts: seq<Thread>, c: nat)
    ensures (forall t :: 0 <= t < |ts| ==> f(ts[t]) <= c) ==> Sum(f, ts) <= |ts| * c
    ensures (forall t :: 0 <= t < |ts| ==> f(ts[t]) == c) ==> Sum(f, ts) == |ts| * c
  {
    if ts != [] {
      SumConst(f, ts[1..], c);
      assert forall t :: 0 <= t < |ts[1..]| ==> ts[1..][t] == ts[t + 1];
      assert |ts| * c == |ts[1..]| * c + c;
    }
  }

  // ---------- Invariants ----------

  predicate Critical(th: Thread) { th.pc == Load || th.pc == Store || th.pc == Unlock }

  function InCs(th: Thread): nat { if Critical(th) then 1 else 0 }
  function Sleeping(th: Thread): nat { if th.pc == Asleep then 1 else 0 }
  /** A thread that will still look at a sleeper: about to wake one, or about to exchange in 2. */
  function Rescuer(th: Thread): nat { if th.pc == Wake || th.pc == Xchg then 1 else 0 }
  /** Increments of `shared` this thread has completed. */
  function Added(th: Thread): nat { th.i + if th.pc == Unlock || th.pc == Wake then 1 else 0 }

  ghost predicate ThreadOk(N: nat, s: State, th: Thread) {
    && th.i <= N
    && (th.pc == Done ==> th.i == N)
    && (th.pc != Done && th.pc != Head ==> th.i < N)
    && (th.pc == Store ==> th.tmp == s.shared)
  }

  ghost predicate ThreadsOk(N: nat, s: State) {
    forall t :: 0 <= t < |s.threads| ==> ThreadOk(N, s, s.threads[t])
  }

  ghost predicate SumsOk(s: State) {
    && 0 <= s.m <= 2
    && Sum(InCs, s.threads) == (if s.m == 0 then 0 else 1)
    && s.shared == Sum(Added, s.threads)
    && (Sum(Sleeping, s.threads) > 0 ==> s.m == 2 || Sum(Rescuer, s.threads) > 0)
  }

  ghost predicate Inv(N: nat, s: State) {
    ThreadsOk(N, s) && SumsOk(s)
  }

  lemma InitInv(T: nat, N: nat)
    ensures Inv(N, Init(T))
  {
    var ts := Init(T).threads;
    SumConst(InCs, ts, 0);
    SumConst(Added, ts, 0);
    SumConst(Sleeping, ts, 0);
  }

  lemma PutSums(s: State, t: nat, th: Thread)
    requires t < |s.threads|
    ensures var ts := Put(s, t, th).threads;
      && Sum(InCs, ts) == Sum(InCs, s.threads) - InCs(s.threads[t]) + InCs(th)
      && Sum(Added, ts) == Sum(Added, s.threads) - Added(s.threads[t]) + Added(th)
      && Sum(Sleeping, ts) == Sum(Sleeping, s.threads) - Sleeping(s.threads[t]) + Sleeping(th)
      && Sum(Rescuer, ts) == Sum(Rescuer, s.threads) - Rescuer(s.threads[t]) + Rescuer(th)
  {
    SumUpdate(InCs, s.threads, t, th);
    SumUpdate(Added, s.threads, t, th);
    SumUpdate(Sleeping, s.threads, t, th);
    SumUpdate(Rescuer, s.threads, t, th);
  }

  lemma StepInv(N: nat, s: State, a: Action)
    requires Inv(N, s) && Enabled(s, a)
    ensures Inv(N, Apply(N, s, a))
    ensures |Apply(N, s, a).threads| == |s.threads|
  {
    StepThreads(N, s, a);
    match a
    case Spurious(w) => PutSums(s, w, Apply(N, s, a).threads[w]);
    case Rouse(t, w) => RouseSums(N, s, t, w);
    case Run(t) => RunSums(N, s, t);
  }

  lemma RouseSums(N: nat, s: State, t: nat, w: nat)
    requires SumsOk(s) && Enabled(s, Rouse(t, w))
    ensures SumsOk(Apply(N, s, Rouse(t, w)))
  {
    RouseTotals(N, s, t, w);
    SumAtLeast(Rescuer, Apply(N, s, Rouse(t, w)).threads, w);
  }

  /** The sleeper w becomes a rescuer in place of the waker t. */
  lemma RouseTotals(N: nat, s: State, t: nat, w: nat)
    requires Enabled(s, Rouse(t, w))
    ensures var ts' := Apply(N, s, Rouse(t, w)).threads;
      && Sum(InCs, ts') == Sum(InCs, s.threads)
      && Sum(Added, ts') == Sum(Added, s.threads)
      && Sum(Sleeping, ts') == Sum(Sleeping, s.threads) - 1
      && Sum(Rescuer, ts') == Sum(Rescuer, s.threads)
  {
    var mid, s' := Jump(s, w, Xchg), Apply(N, s, Rouse(t, w));
    PutSums(s, w, mid.threads[w]);
    PutSums(mid, t, s'.threads[t]);
  }

  lemma StepThreads(N: nat, s: State, a: Action)
    requires Inv(N, s) && Enabled(s, a)
    ensures ThreadsOk(N, Apply(N, s, a))
    ensures |Apply(N, s, a).threads| == |s.threads|
  {
    if a.Run? && s.threads[a.t].pc == Store { OnlyOwner(s, a.t); }
    var s' := Apply(N, s, a);
    forall u | 0 <= u < |s.threads|
      ensures ThreadOk(N, s', s'.threads[u])
    {
      assert ThreadOk(N, s, s.threads[u]);
    }
  }

  lemma RunSums(N: nat, s: State, t: nat)
    requires Inv(N, s) && Enabled(s, Run(t))
    ensures SumsOk(Apply(N, s, Run(t)))
  {
    var th' := Apply(N, s, Run(t)).threads[t];
    PutSums(s, t, th');
    assert Apply(N, s, Run(t)).threads == Put(s, t, th').threads;
    assert ThreadOk(N, s, s.threads[t]);
    SumAtLeast(InCs, s.threads, t);
    SumAtLeast(Rescuer, Put(s, t, th').threads, t);
    if s.threads[t].pc == Wake {
      NobodyAsleep(s);
    }
  }

  /** futex_wake finds an empty queue exactly when no thread is counted asleep. */
  lemma NobodyAsleep(s: State)
    requires forall w :: !At(s, w, Asleep)
    ensures Sum(Sleeping, s.threads) == 0
  {
    SumPositive(Sleeping, s.threads);
    if w :| 0 <= w < |s.threads| && Sleeping(s.threads[w]) > 0 {
      assert At(s, w, Asleep);
    }
  }

  /** With at most one thread counted inside, an inside thread is the only one. */
  lemma OnlyOwner(s: State, t: nat)
    requires t < |s.threads| && Critical(s.threads[t]) && Sum(InCs, s.threads) <= 1
    ensures forall u :: 0 <= u < |s.threads| && u != t ==> !Critical(s.threads[u])
  {
    forall u | 0 <= u < |s.threads| && u != t
      ensures !Critical(s.threads[u])
    {
      SumTwo(InCs, s.threads, if t < u then t else u, if t < u then u else t);
    }
  }

  // ---------- Safety of every reachable state ----------

  lemma {:induction false} ExecInv(N: nat, s: State, run: seq<Action>)
    requires Inv(N, s) && Possible(N, s, run)
    ensures Inv(N, Exec(N, s, run)) && |Exec(N, s, run).threads| == |s.threads|
    decreases |run|
  {
    if run != [] {
      StepInv(N, s, run[0]);
      ExecInv(N, Apply(N, s, run[0]), run[1..]);
    }
  }

  lemma ReachableInv(T: nat, N: nat, s: State)
    requires Reachable(T, N, s)
    ensures Inv(N, s) && |s.threads| == T
  {
    var run :| Possible(N, Init(T), run) && Exec(N, Init(T), run) == s;
    InitInv(T, N);
    ExecInv(N, Init(T), run);
  }

  /** Mutual exclusion, spurious wakeups included: two threads are never both between `lock` and
      the exchange of `unlock`, and the word is nonzero exactly while one is. */
  lemma MutualExclusion(T: nat, N: nat, s: State)
    requires Reachable(T, N, s)
    ensures |s.threads| == T
    ensures forall t, u :: 0 <= t < T && 0 <= u < T && Critical(s.threads[t]) && Critical(s.threads[u]) ==> t == u
    ensures s.m != 0 <==> exists t :: 0 <= t < T && Critical(s.threads[t])
  {
    ReachableInv(T, N, s);
    SumPositive(InCs, s.threads);
    forall t, u | 0 <= t < T && 0 <= u < T && Critical(s.threads[t]) && Critical(s.threads[u])
      ensures t == u
    {
      OnlyOwner(s, t);
    }
  }

  /** `shared++` is a load and a store, yet no increment is ever lost. */
  lemma NoLostIncrement(T: nat, N: nat, s: State)
    requires Reachable(T, N, s)
    ensures |s.threads| == T
    ensures s.shared == Sum(Added, s.threads)
    ensures (forall t :: 0 <= t < T ==> s.threads[t].pc == Done) ==> s.shared == T * N
  {
    ReachableInv(T, N, s);
    SumConst(Added, s.threads, N);
  }

  /** It is the lock that saves them: two threads let in at once can lose one. */
  lemma LostWithoutLock(N: nat, x: int)
    ensures var s := State(1, x, [Thread(Load, 0, 0), Thread(Load, 0, 0)]);
      var run := [Run(0), Run(1), Run(0), Run(1)];
      Possible(N, s, run) && Exec(N, s, run).shared == x + 1
  {
    var s := State(1, x, [Thread(Load, 0, 0), Thread(Load, 0, 0)]);
    var run := [Run(0), Run(1), Run(0), Run(1)];
    var s1 := Apply(N, s, run[0]);
    var s2 := Apply(N, s1, run[1]);
    var s3 := Apply(N, s2, run[2]);
    var s4 := Apply(N, s3, run[3]);
    assert s4.shared == x + 1;
    assert run[1..][1..] == [Run(0), Run(1)] && run[1..][1..][1..] == [Run(1)] && run[1..][1..][1..][1..] == [];
  }

  /** No lost wakeup: while a thread sleeps, the word says so, or another thread is on its way
      to wake a sleeper or to write 2. */
  lemma NoLostWakeup(T: nat, N: nat, s: State, w: nat)
    requires Reachable(T, N, s) && At(s, w, Asleep)
    ensures s.m == 2 || exists t :: At(s, t, Wake) || At(s, t, Xchg)
  {
    ReachableInv(T, N, s);
    SumPositive(Sleeping, s.threads);
    SumPositive(Rescuer, s.threads);
    if s.m != 2 {
      assert Sleeping(s.threads[w]) > 0;
      var t :| 0 <= t < |s.threads| && Rescuer(s.threads[t]) > 0;
      assert At(s, t, Wake) || At(s, t, Xchg);
    }
  }

  /** Deadlock freedom: a reachable state where only spurious wakeups (or nothing) can happen
      is a finished one, and the counter then holds every increment. */
  lemma StuckMeansFinished(T: nat, N: nat, s: State)
    requires Reachable(T, N, s)
    requires forall a :: Enabled(s, a) ==> a.Spurious?
    ensures |s.threads| == T
    ensures forall t :: 0 <= t < T ==> s.threads[t].pc == Done
    ensures s.shared == T * N
  {
    ReachableInv(T, N, s);
    forall t | 0 <= t < T
      ensures s.threads[t].pc == Done || s.threads[t].pc == Asleep
    {
      assert !Enabled(s, Run(t));
      if s.threads[t].pc == Wake {
        var w :| At(s, w, Asleep);
        assert Enabled(s, Rouse(t, w));
      }
    }
    forall t | 0 <= t < T
      ensures s.threads[t].pc == Done
    {
      if s.threads[t].pc == Asleep {
        NoLostWakeup(T, N, s, t);
        MutualExclusion(T, N, s);
      }
    }
    NoLostIncrement(T, N, s);
  }

  // ---------- Termination under every scheduler ----------

  /** Exchanges in `unlock` still to come. */
  function Remaining(N: nat): Thread -> nat {
    (th: Thread) => if th.i + (if th.pc == Wake then 1 else 0) < N
                    then N - th.i - (if th.pc == Wake then 1 else 0) else 0
  }

  function Waking(th: Thread): nat { if th.pc == Wake then 1 else 0 }

  /** Own steps left before a thread unlocks or sleeps while nobody else unlocks or wakes.
      A failed exchange sends a thread round the loop only while the word is not yet 2. */
  function Rank(two: bool): Thread -> nat {
    (th: Thread) => match th.pc
      case Head => 6
      case Cas => 5
      case Xchg => if two then 2 else 4
      case Wait => if two then 1 else 5
      case Load => 3
      case Store => 2
      case Unlock => 1
      case Asleep => 0
      case Wake => 0
      case Done => 0
  }

  /** Unlocks left, pending wakers, and ranks: the triple every step lowers lexicographically. */
  datatype Measure = Measure(unlocks: nat, wakers: nat, ranks: nat)

  function MeasureOf(N: nat, s: State): Measure {
    Measure(Sum(Remaining(N), s.threads), Sum(Waking, s.threads), Sum(Rank(s.m == 2), s.threads))
  }

  predicate Lower(x: Measure, y: Measure) {
    || x.unlocks < y.unlocks
    || (x.unlocks == y.unlocks && x.wakers < y.wakers)
    || (x.unlocks == y.unlocks && x.wakers == y.wakers && x.ranks < y.ranks)
  }

  /** The triple packed into one number: there are at most T wakers, and the ranks add up to at
      most 6 * T. */
  function Packed(T: nat, x: Measure): nat {
    Pack(6 * T + 1, Pack(T + 1, x.unlocks, x.wakers), x.ranks)
  }

  function Fuel(N: nat, s: State): nat {
    Packed(|s.threads|, MeasureOf(N, s))
  }

  function Pack(base: nat, high: nat, low: nat): nat { high * base + low }

  lemma PackLex(base: nat, high: nat, low: nat, high': nat, low': nat)
    requires low' < base
    requires high' < high || (high' == high && low' < low)
    ensures Pack(base, high', low') < Pack(base, high, low)
  {
    if high' < high {
      MulLe(high' + 1, high, base);
      calc {
        Pack(base, high', low');
      <
        high' * base + base;
      ==
        (high' + 1) * base;
      <=
        high * base;
      }
    }
  }

  lemma PackedLower(T: nat, x: Measure, y: Measure)
    requires x.wakers <= T && x.ranks <= 6 * T && Lower(x, y)
    ensures Packed(T, x) < Packed(T, y)
  {
    if x.unlocks < y.unlocks || x.wakers < y.wakers { PackLex(T + 1, y.unlocks, y.wakers, x.unlocks, x.wakers); }
    PackLex(6 * T + 1, Pack(T + 1, y.unlocks, y.wakers), y.ranks, Pack(T + 1, x.unlocks, x.wakers), x.ranks);
  }

  lemma MeasureBounds(N: nat, s: State)
    ensures MeasureOf(N, s).wakers <= |s.threads| && MeasureOf(N, s).ranks <= 6 * |s.threads|
  {
    SumConst(Waking, s.threads, 1);
    SumConst(Rank(s.m == 2), s.threads, 6);
  }

  lemma StepBurns(N: nat, s: State, a: Action)
    requires Inv(N, s) && Enabled(s, a) && !a.Spurious?
    ensures Fuel(N, Apply(N, s, a)) < Fuel(N, s)
  {
    StepLower(N, s, a);
    MeasureBounds(N, Apply(N, s, a));
    SameCrew(N, s, a);
    PackedLower(|s.threads|, MeasureOf(N, Apply(N, s, a)), MeasureOf(N, s));
  }

  lemma SameCrew(N: nat, s: State, a: Action)
    requires Enabled(s, a)
    ensures |Apply(N, s, a).threads| == |s.threads|
  {
  }

  /** Every step but a spurious wakeup lowers the triple. */
  lemma StepLower(N: nat, s: State, a: Action)
    requires Inv(N, s) && Enabled(s, a) && !a.Spurious?
    ensures Lower(MeasureOf(N, Apply(N, s, a)), MeasureOf(N, s))
  {
    if a.Rouse? {
      RouseBurns(N, s, a.t, a.w);
    } else {
      RunCounts(N, s, a.t);
      if s.threads[a.t].pc != Unlock && s.threads[a.t].pc != Wake {
        RunRank(N, s, a.t);
      }
    }
  }

  lemma RunCounts(N: nat, s: State, t: nat)
    requires Inv(N, s) && Enabled(s, Run(t))
    ensures var ts, ts' := s.threads, Apply(N, s, Run(t)).threads;
      && Sum(Remaining(N), ts') == Sum(Remaining(N), ts) - (if ts[t].pc == Unlock then 1 else 0)
      && (ts[t].pc != Unlock ==> Sum(Waking, ts') == Sum(Waking, ts) - (if ts[t].pc == Wake then 1 else 0))
  {
    var ts, th' := s.threads, Apply(N, s, Run(t)).threads[t];
    assert ThreadOk(N, s, ts[t]);
    assert Apply(N, s, Run(t)).threads == ts[t := th'];
    SumUpdate(Remaining(N), ts, t, th');
    SumUpdate(Waking, ts, t, th');
  }

  lemma RunRank(N: nat, s: State, t: nat)
    requires Inv(N, s) && Enabled(s, Run(t)) && s.threads[t].pc != Unlock && s.threads[t].pc != Wake
    ensures var s' := Apply(N, s, Run(t));
      Sum(Rank(s'.m == 2), s'.threads) < Sum(Rank(s.m == 2), s.threads)
  {
    var s' := Apply(N, s, Run(t));
    var ts, two := s.threads, s'.m == 2;
    assert s'.threads == ts[t := s'.threads[t]];
    SumUpdate(Rank(two), ts, t, s'.threads[t]);
    SumGap(Rank(two), Rank(s.m == 2), ts, t);
  }

  lemma RouseBurns(N: nat, s: State, t: nat, w: nat)
    requires Inv(N, s) && Enabled(s, Rouse(t, w))
    ensures var ts' := Apply(N, s, Rouse(t, w)).threads;
      Sum(Remaining(N), ts') == Sum(Remaining(N), s.threads) && Sum(Waking, ts') < Sum(Waking, s.threads)
  {
    var mid := Jump(s, w, Xchg).threads;
    var ts' := Apply(N, s, Rouse(t, w)).threads;
    assert ts' == mid[t := ts'[t]];
    SumUpdate(Remaining(N), s.threads, w, mid[w]);
    SumUpdate(Waking, s.threads, w, mid[w]);
    SumUpdate(Remaining(N), mid, t, ts'[t]);
    SumUpdate(Waking, mid, t, ts'[t]);
  }

  /** A spurious wakeup sends a sleeper back to its exchange, which costs at most four steps more. */
  lemma SpuriousBurns(N: nat, s: State, w: nat)
    requires At(s, w, Asleep)
    ensures Fuel(N, Apply(N, s, Spurious(w))) <= Fuel(N, s) + 4
  {
    var th := s.threads[w].(pc := Xchg);
    SumUpdate(Remaining(N), s.threads, w, th);
    SumUpdate(Waking, s.threads, w, th);
    SumUpdate(Rank(s.m == 2), s.threads, w, th);
  }

  /** Spurious wakeups in a schedule. */
  function Wakeups(run: seq<Action>): nat {
    if run == [] then 0 else (if run[0].Spurious? then 1 else 0) + Wakeups(run[1..])
  }

  lemma {:induction false} RunBurns(N: nat, s: State, run: seq<Action>)
    requires Inv(N, s) && Possible(N, s, run)
    ensures |run| + Fuel(N, Exec(N, s, run)) <= Fuel(N, s) + 5 * Wakeups(run)
    decreases |run|
  {
    if run != [] {
      StepInv(N, s, run[0]);
      if run[0].Spurious? {
        SpuriousBurns(N, s, run[0].w);
      } else {
        StepBurns(N, s, run[0]);
      }
      RunBurns(N, Apply(N, s, run[0]), run[1..]);
    }
  }

  lemma InitFuel(T: nat, N: nat)
    ensures Fuel(N, Init(T)) <= T * N * (T + 1) * (6 * T + 1) + 6 * T
  {
    var ts := Init(T).threads;
    SumConst(Remaining(N), ts, N);
    SumConst(Waking, ts, 0);
    SumConst(Rank(false), ts, 6);
    assert Pack(T + 1, T * N, 0) == T * N * (T + 1);
  }

  /** Total correctness: no schedule, fair or not, is longer than a bound that depends only on T
      and N and five steps for each spurious wakeup in it; and a schedule that only spurious
      wakeups could extend has finished every thread with `shared == T * N`. */
  lemma TotalCorrectness(T: nat, N: nat, run: seq<Action>)
    requires Possible(N, Init(T), run)
    ensures |run| <= T * N * (T + 1) * (6 * T + 1) + 6 * T + 5 * Wakeups(run)
    ensures var s := Exec(N, Init(T), run);
      (forall a :: Enabled(s, a) ==> a.Spurious?) ==>
        s.shared == T * N && |s.threads| == T && forall t :: 0 <= t < T ==> s.threads[t].pc == Done
  {
    var s := Init(T);
    InitInv(T, N);
    RunBurns(N, s, run);
    InitFuel(T, N);
    var e := Exec(N, s, run);
    assert Reachable(T, N, e);
    if forall a :: Enabled(e, a) ==> a.Spurious? {
      StuckMeansFinished(T, N, e);
    }
  }

  // ---------- What the calls of a run amount to ----------

  /** The atomic operation a step performs, and how it comes out: the CAS of `lock`, its exchange,
      futex_wait, the exchange of `unlock`, futex_wake, and early returns of futex_wait. */
  datatype Call = CasWon | CasLost | ExchangeWon | ExchangeLost | WaitSlept | WaitRefused
                | UnlockQuiet | UnlockContended | WakeNone | WakeOne | WokenEarly | Local

  /** Read off the word and the operation the thread is about to perform. */
  function CallOf(s: State, a: Action): Call {
    match a
    case Rouse(_, _) => WakeOne
    case Spurious(_) => WokenEarly
    case Run(t) =>
      if t >= |s.threads| then Local else
        match s.threads[t].pc
        case Cas => if s.m == 0 then CasWon else CasLost
        case Xchg => if s.m == 0 then ExchangeWon else ExchangeLost
        case Wait => if s.m == 2 then WaitSlept else WaitRefused
        case Unlock => if s.m == 2 then UnlockContended else UnlockQuiet
        case Wake => WakeNone
        case _ => Local
  }

  /** How often each operation was performed. */
  datatype Books = Books(casWon: nat, casLost: nat, exchangeWon: nat, exchangeLost: nat, waitSlept: nat,
                         waitRefused: nat, unlockQuiet: nat, unlockContended: nat, wakeNone: nat, wakeOne: nat,
                         wokenEarly: nat)

  function Enter(k: Call, c: Books): Books {
    match k
    case CasWon => c.(casWon := c.casWon + 1)
    case CasLost => c.(casLost := c.casLost + 1)
    case ExchangeWon => c.(exchangeWon := c.exchangeWon + 1)
    case ExchangeLost => c.(exchangeLost := c.exchangeLost + 1)
    case WaitSlept => c.(waitSlept := c.waitSlept + 1)
    case WaitRefused => c.(waitRefused := c.waitRefused + 1)
    case UnlockQuiet => c.(unlockQuiet := c.unlockQuiet + 1)
    case UnlockContended => c.(unlockContended := c.unlockContended + 1)
    case WakeNone => c.(wakeNone := c.wakeNone + 1)
    case WakeOne => c.(wakeOne := c.wakeOne + 1)
    case WokenEarly => c.(wokenEarly := c.wokenEarly + 1)
    case Local => c
  }

  /** The operations of a run, counted. */
  ghost function Calls(N: nat, s: State, run: seq<Action>): Books
    requires Possible(N, s, run)
    decreases |run|
  {
    if run == [] then Books(0, 0, 0, 0, 0, 0, 0, 0, 0, 0, 0)
    else Enter(CallOf(s, run[0]), Calls(N, Apply(N, s, run[0]), run[1..]))
  }

  function On(pc: Pc): Thread -> nat { (th: Thread) => if th.pc == pc then 1 else 0 }

  /** How many threads are at pc. */
  function Crowd(s: State, pc: Pc): nat { Sum(On(pc), s.threads) }

  /** Locks a thread has released. */
  function Released(th: Thread): nat { th.i + if th.pc == Wake then 1 else 0 }

  /** A thread comes to the exchange of `lock` by losing the CAS or coming out of futex_wait. */
  ghost predicate ExchangesBalance(s: State, c: Books, e: State) {
    Crowd(e, Xchg) + c.exchangeWon + c.exchangeLost
    == Crowd(s, Xchg) + c.casLost + c.waitRefused + c.wakeOne + c.wokenEarly
  }

  /** It calls futex_wait after every lost exchange ... */
  ghost predicate WaitsBalance(s: State, c: Books, e: State) {
    Crowd(e, Wait) + c.waitSlept + c.waitRefused == Crowd(s, Wait) + c.exchangeLost
  }

  /** ... and sleeps there until it is woken. */
  ghost predicate SleepsBalance(s: State, c: Books, e: State) {
    Crowd(e, Asleep) + c.wakeOne + c.wokenEarly == Crowd(s, Asleep) + c.waitSlept
  }

  /** It calls futex_wake after exactly those exchanges of `unlock` that found 2 ... */
  ghost predicate WakesBalance(s: State, c: Books, e: State) {
    Crowd(e, Wake) + c.wakeNone + c.wakeOne == Crowd(s, Wake) + c.unlockContended
  }

  /** ... and each of these needs an exchange of `lock` of its own. */
  ghost predicate TwosBalance(s: State, c: Books, e: State) {
    (if e.m == 2 then 1 else 0) + c.unlockContended
    <= (if s.m == 2 then 1 else 0) + c.exchangeWon + c.exchangeLost
  }

  /** It holds the lock from a CAS or exchange that found 0 to its `unlock` ... */
  ghost predicate LocksBalance(s: State, c: Books, e: State) {
    Sum(InCs, e.threads) + c.unlockQuiet + c.unlockContended == Sum(InCs, s.threads) + c.casWon + c.exchangeWon
  }

  /** ... and releases it once an iteration. */
  ghost predicate UnlocksBalance(s: State, c: Books, e: State) {
    Sum(Released, e.threads) == Sum(Released, s.threads) + c.unlockQuiet + c.unlockContended
  }

  /** The books from s to e, with c counting the operations performed. */
  ghost predicate Balanced(s: State, c: Books, e: State) {
    && ExchangesBalance(s, c, e) && WaitsBalance(s, c, e) && SleepsBalance(s, c, e) && WakesBalance(s, c, e)
    && TwosBalance(s, c, e) && LocksBalance(s, c, e) && UnlocksBalance(s, c, e)
  }

  /** How a step changes a sum over the threads. */
  ghost predicate Shifts(s: State, a: Action, s': State, f: Thread -> nat)
    requires |s'.threads| == |s.threads| && Enabled(s, a)
  {
    var ts, ts' := s.threads, s'.threads;
    Sum(f, ts') == Sum(f, ts) + match a
      case Run(t) => f(ts'[t]) - f(ts[t])
      case Spurious(w) => f(ts'[w]) - f(ts[w])
      case Rouse(t, w) => f(ts'[t]) - f(ts[t]) + f(ts'[w]) - f(ts[w])
  }

  lemma StepSum(N: nat, s: State, a: Action, f: Thread -> nat)
    requires Enabled(s, a)
    ensures |Apply(N, s, a).threads| == |s.threads| && Shifts(s, a, Apply(N, s, a), f)
  {
    var ts, ts' := s.threads, Apply(N, s, a).threads;
    match a
    case Run(t) =>
      assert ts' == ts[t := ts'[t]];
      SumUpdate(f, ts, t, ts'[t]);
    case Spurious(w) => SumUpdate(f, ts, w, ts'[w]);
    case Rouse(t, w) =>
      var mid := ts[w := ts'[w]];
      assert ts' == mid[t := ts'[t]];
      SumUpdate(f, ts, w, ts'[w]);
      SumUpdate(f, mid, t, ts'[t]);
  }

  lemma StepExchanges(N: nat, s: State, a: Action, s': State, c: Books, e: State)
    requires Enabled(s, a) && s' == Apply(N, s, a) && ExchangesBalance(s', c, e)
    ensures ExchangesBalance(s, Enter(CallOf(s, a), c), e)
  {
    StepSum(N, s, a, On(Xchg));
  }

  lemma StepWaits(N: nat, s: State, a: Action, s': State, c: Books, e: State)
    requires Enabled(s, a) && s' == Apply(N, s, a) && WaitsBalance(s', c, e)
    ensures WaitsBalance(s, Enter(CallOf(s, a), c), e)
  {
    StepSum(N, s, a, On(Wait));
  }

  lemma StepSleeps(N: nat, s: State, a: Action, s': State, c: Books, e: State)
    requires Enabled(s, a) && s' == Apply(N, s, a) && SleepsBalance(s', c, e)
    ensures SleepsBalance(s, Enter(CallOf(s, a), c), e)
  {
    StepSum(N, s, a, On(Asleep));
  }

  lemma StepWakes(N: nat, s: State, a: Action, s': State, c: Books, e: State)
    requires Enabled(s, a) && s' == Apply(N, s, a) && WakesBalance(s', c, e)
    ensures WakesBalance(s, Enter(CallOf(s, a), c), e)
  {
    StepSum(N, s, a, On(Wake));
  }

  lemma StepTwos(N: nat, s: State, a: Action, s': State, c: Books, e: State)
    requires Enabled(s, a) && s' == Apply(N, s, a) && TwosBalance(s', c, e)
    ensures TwosBalance(s, Enter(CallOf(s, a), c), e)
  {
  }

  lemma StepLocks(N: nat, s: State, a: Action, s': State, c: Books, e: State)
    requires Enabled(s, a) && s' == Apply(N, s, a) && LocksBalance(s', c, e)
    ensures LocksBalance(s, Enter(CallOf(s, a), c), e)
  {
    StepSum(N, s, a, InCs);
  }

  lemma StepUnlocks(N: nat, s: State, a: Action, s': State, c: Books, e: State)
    requires Enabled(s, a) && s' == Apply(N, s, a) && UnlocksBalance(s', c, e)
    ensures UnlocksBalance(s, Enter(CallOf(s, a), c), e)
  {
    StepSum(N, s, a, Released);
  }

  /** The books of every run balance. */
  lemma {:induction false} RunBalanced(N: nat, s: State, run: seq<Action>)
    requires Possible(N, s, run)
    ensures Balanced(s, Calls(N, s, run), Exec(N, s, run))
    decreases |run|
  {
    if run != [] {
      var a := run[0];
      var s', e := Apply(N, s, a), Exec(N, s, run);
      var c := Calls(N, s', run[1..]);
      RunBalanced(N, s', run[1..]);
      StepExchanges(N, s, a, s', c, e);
      StepWaits(N, s, a, s', c, e);
      StepSleeps(N, s, a, s', c, e);
      StepWakes(N, s, a, s', c, e);
      StepTwos(N, s, a, s', c, e);
      StepLocks(N, s, a, s', c, e);
      StepUnlocks(N, s, a, s', c, e);
    }
  }

  /** Of a finished run: T * N locks are taken and released, futex_wake is called exactly as often
      as an `unlock` found 2, which is at most once for each slow-path exchange, and futex_wait
      exactly as often as such an exchange was lost. */
  lemma FinishedAccounts(T: nat, N: nat, run: seq<Action>)
    requires Possible(N, Init(T), run)
    requires forall t :: 0 <= t < |Exec(N, Init(T), run).threads| ==> Exec(N, Init(T), run).threads[t].pc == Done
    ensures Settled(Calls(N, Init(T), run), T * N)
  {
    var s, e := Init(T), Exec(N, Init(T), run);
    RunBalanced(N, s, run);
    assert Reachable(T, N, e);
    ReachableInv(T, N, e);
    AllReleased(N, e);
    SumConst(Released, s.threads, 0);
    CrowdGone(s);
    CrowdGone(e);
    Settle(s, Calls(N, Init(T), run), e, T * N);
  }

  lemma AllReleased(N: nat, s: State)
    requires Inv(N, s) && forall t :: 0 <= t < |s.threads| ==> s.threads[t].pc == Done
    ensures Sum(Released, s.threads) == |s.threads| * N
  {
    forall t | 0 <= t < |s.threads|
      ensures Released(s.threads[t]) == N
    {
      assert ThreadOk(N, s, s.threads[t]);
    }
    SumConst(Released, s.threads, N);
  }

  ghost predicate Settled(c: Books, locks: nat) {
    && c.casWon + c.exchangeWon == c.unlockQuiet + c.unlockContended == locks
    && c.wakeNone + c.wakeOne == c.unlockContended <= c.exchangeWon + c.exchangeLost
    && c.waitSlept + c.waitRefused == c.exchangeLost
    && c.wakeOne + c.wokenEarly == c.waitSlept
  }

  ghost predicate Gone(s: State) {
    Crowd(s, Xchg) == Crowd(s, Wait) == Crowd(s, Asleep) == Crowd(s, Wake) == Sum(InCs, s.threads) == 0
  }

  lemma Settle(s: State, c: Books, e: State, locks: nat)
    requires Balanced(s, c, e) && Gone(s) && Gone(e) && s.m != 2
    requires Sum(Released, s.threads) == 0 && Sum(Released, e.threads) == locks
    ensures Settled(c, locks)
  {
  }

  /** Nobody is inside `lock` or `unlock`. */
  lemma CrowdGone(s: State)
    requires forall t :: 0 <= t < |s.threads| ==> s.threads[t].pc == Done || s.threads[t].pc == Head
    ensures Gone(s)
  {
    SumConst(On(Xchg), s.threads, 0);
    SumConst(On(Wait), s.threads, 0);
    SumConst(On(Asleep), s.threads, 0);
    SumConst(On(Wake), s.threads, 0);
    SumConst(InCs, s.threads, 0);
  }

  // ---------- What the comment on the word's values gets right ----------

  lemma {:induction false} ExecSnoc(N: nat, s: State, run: seq<Action>, a: Action)
    requires Possible(N, s, run) && Enabled(Exec(N, s, run), a)
    ensures Possible(N, s, run + [a]) && Exec(N, s, run + [a]) == Apply(N, Exec(N, s, run), a)
    decreases |run|
  {
    if run == [] {
      assert run + [a] == [a];
    } else {
      assert (run + [a])[1..] == run[1..] + [a];
      ExecSnoc(N, Apply(N, s, run[0]), run[1..], a);
    }
  }

  lemma ReachStep(T: nat, N: nat, s: State, a: Action) returns (s': State)
    requires Reachable(T, N, s) && Enabled(s, a)
    ensures s' == Apply(N, s, a) && Reachable(T, N, s')
  {
    var run :| Possible(N, Init(T), run) && Exec(N, Init(T), run) == s;
    ExecSnoc(N, Init(T), run, a);
    s' := Apply(N, s, a);
  }

  lemma ReachInit(T: nat, N: nat)
    ensures Reachable(T, N, Init(T))
  {
    assert Possible(N, Init(T), []) && Exec(N, Init(T), []) == Init(T);
  }

  /** The word's documented values speak of waiters: threads in the queue of futex_wait ... */
  predicate Queued(s: State, w: nat) { At(s, w, Asleep) }

  /** ... or, more widely, threads that have gone into futex_wait, queued or not yet. */
  predicate Waiting(s: State, w: nat) { At(s, w, Wait) || At(s, w, Asleep) }

  /** "1 = locked, no waiters", of queued threads. */
  ghost predicate OneMeansNoneQueued(s: State) {
    s.m == 1 ==> forall w: nat :: !Queued(s, w)
  }

  /** "1 = locked, no waiters", of waiting threads. */
  ghost predicate OneMeansNoneWaiting(s: State) {
    s.m == 1 ==> forall w: nat :: !Waiting(s, w)
  }

  /** "2 = locked, contended (someone in FUTEX_WAIT)", of queued threads. */
  ghost predicate TwoMeansSomeQueued(s: State) {
    s.m == 2 ==> exists w: nat :: Queued(s, w)
  }

  /** "2 = locked, contended (someone in FUTEX_WAIT)", of waiting threads. */
  ghost predicate TwoMeansSomeWaiting(s: State) {
    s.m == 2 ==> exists w: nat :: Waiting(s, w)
  }

  /** With two threads, a queued thread's partner holds the lock with the word at 2, or has just
      unlocked and is about to wake it. */
  ghost predicate Partnered(s: State) {
    forall w: nat :: Queued(s, w) ==> exists t :: t != w && Partner(s, t)
  }

  ghost predicate Partner(s: State, t: nat) {
    && t < |s.threads|
    && ((Critical(s.threads[t]) && s.m == 2) || (s.threads[t].pc == Wake && s.m == 0))
  }

  /** A thread starts to wait, or enters the queue, only while another holds the lock; the word is
      then 2. */
  lemma StartsWaiting(N: nat, s: State, a: Action, w: nat) returns (t: nat)
    requires Inv(N, s) && Enabled(s, a)
    requires var s' := Apply(N, s, a); (Waiting(s', w) && !Waiting(s, w)) || (Queued(s', w) && !Queued(s, w))
    ensures var s' := Apply(N, s, a);
      t != w && t < |s'.threads| == |s.threads| && Critical(s'.threads[t]) && s'.m == 2
  {
    assert a == Run(w) && (At(s, w, Xchg) || At(s, w, Wait)) && s.m != 0;
    SumPositive(InCs, s.threads);
    t :| 0 <= t < |s.threads| && InCs(s.threads[t]) > 0;
  }

  /** A thread that stays in the queue keeps its partner. */
  lemma KeepsPartner(N: nat, s: State, a: Action, w: nat, t: nat)
    requires Enabled(s, a) && |s.threads| <= 2 && w != t && Partner(s, t)
    requires Queued(s, w) && Queued(Apply(N, s, a), w)
    ensures Partner(Apply(N, s, a), t)
  {
    assert a == Run(t);
  }

  lemma PartneredStep(N: nat, s: State, a: Action)
    requires Inv(N, s) && Partnered(s) && Enabled(s, a) && |s.threads| <= 2
    ensures Partnered(Apply(N, s, a))
  {
    var s' := Apply(N, s, a);
    forall w: nat | Queued(s', w)
      ensures exists t :: t != w && Partner(s', t)
    {
      if Queued(s, w) {
        var t :| t != w && Partner(s, t);
        KeepsPartner(N, s, a, w, t);
      } else {
        var t := StartsWaiting(N, s, a, w);
        assert Partner(s', t);
      }
    }
  }

  lemma {:induction false} PartneredRun(N: nat, s: State, run: seq<Action>)
    requires Inv(N, s) && Partnered(s) && Possible(N, s, run) && |s.threads| <= 2
    ensures Partnered(Exec(N, s, run))
    decreases |run|
  {
    if run != [] {
      StepInv(N, s, run[0]);
      PartneredStep(N, s, run[0]);
      PartneredRun(N, Apply(N, s, run[0]), run[1..]);
    }
  }

  /** With two threads and one round each, a waiting thread's partner holds the lock with the word
      at 2, or has unlocked it for good. */
  ghost predicate Behind(s: State, u: nat)
    requires u < |s.threads|
  {
    (Critical(s.threads[u]) && s.m == 2) || s.threads[u].pc == Wake || s.threads[u].i > 0
  }

  ghost predicate OneRound(s: State) {
    forall w: nat, u: nat :: Waiting(s, w) && u < |s.threads| && u != w ==> Behind(s, u)
  }

  lemma StaysBehind(s: State, a: Action, w: nat, u: nat)
    requires Enabled(s, a) && u < |s.threads| == 2 && u != w && Behind(s, u)
    requires Waiting(s, w) && Waiting(Apply(1, s, a), w)
    ensures |Apply(1, s, a).threads| == 2 && Behind(Apply(1, s, a), u)
  {
    if a != Run(u) { assert Apply(1, s, a).threads[u].i == s.threads[u].i; }
  }

  lemma OneRoundStep(s: State, a: Action)
    requires Inv(1, s) && OneRound(s) && Enabled(s, a) && |s.threads| == 2
    ensures OneRound(Apply(1, s, a))
  {
    var s' := Apply(1, s, a);
    forall w: nat, u: nat | Waiting(s', w) && u < |s'.threads| && u != w
      ensures Behind(s', u)
    {
      if Waiting(s, w) {
        StaysBehind(s, a, w, u);
      } else {
        var t := StartsWaiting(1, s, a, w);
        assert t == u;
      }
    }
  }

  lemma {:induction false} OneRoundRun(s: State, run: seq<Action>)
    requires Inv(1, s) && OneRound(s) && Possible(1, s, run) && |s.threads| == 2
    ensures OneRound(Exec(1, s, run))
    decreases |run|
  {
    if run != [] {
      StepInv(1, s, run[0]);
      OneRoundStep(s, run[0]);
      OneRoundRun(Apply(1, s, run[0]), run[1..]);
    }
  }

  lemma OneRoundMeaning(s: State)
    requires Inv(1, s) && OneRound(s) && |s.threads| == 2
    ensures OneMeansNoneWaiting(s)
  {
    SumPositive(InCs, s.threads);
    if s.m == 1 {
      var t :| 0 <= t < |s.threads| && InCs(s.threads[t]) > 0;
      assert ThreadOk(1, s, s.threads[t]);
      assert !Behind(s, t);
    }
  }

  /** With at most one thread the slow path is never taken. */
  ghost predicate NoSlowPath(s: State) {
    s.m != 2 && forall t: nat :: !At(s, t, Xchg) && !Waiting(s, t) && !At(s, t, Wake)
  }

  lemma {:induction false} NoSlowPathRun(N: nat, s: State, run: seq<Action>)
    requires Inv(N, s) && NoSlowPath(s) && Possible(N, s, run) && |s.threads| <= 1
    ensures NoSlowPath(Exec(N, s, run))
    decreases |run|
  {
    if run != [] {
      var s' := Apply(N, s, run[0]);
      StepInv(N, s, run[0]);
      SumPositive(InCs, s.threads);
      if run[0].Run? {
        assert !At(s, run[0].t, Xchg) && !Waiting(s, run[0].t);
      }
      forall t: nat
        ensures !At(s', t, Xchg) && !Waiting(s', t) && !At(s', t, Wake)
      {
        assert !At(s, t, Xchg) && !Waiting(s, t) && !At(s, t, Wake);
      }
      NoSlowPathRun(N, s', run[1..]);
    }
  }

  /** One thread, or nothing to do: nobody ever waits or calls futex_wake, and the word is never
      2. */
  lemma NeverContended(T: nat, N: nat, s: State)
    requires Reachable(T, N, s) && (T <= 1 || N == 0)
    ensures s.m != 2 && forall w: nat :: !Waiting(s, w) && !At(s, w, Wake)
  {
    ReachableInv(T, N, s);
    if N == 0 {
      SumPositive(InCs, s.threads);
      assert forall t: nat :: t < T ==> ThreadOk(N, s, s.threads[t]);
    } else {
      var run :| Possible(N, Init(T), run) && Exec(N, Init(T), run) == s;
      InitInv(T, N);
      NoSlowPathRun(N, Init(T), run);
    }
  }

  /** Thread 0 holds the lock; thread 1 has failed its fast path. */
  lemma QueuedTrace(T: nat, N: nat) returns (s: State)
    requires T >= 2 && N >= 1
    ensures Reachable(T, N, s)
    ensures s == State(1, 0, Init(T).threads[0 := Thread(Load, 0, 0)][1 := Thread(Xchg, 0, 0)])
  {
    ReachInit(T, N);
    s := ReachStep(T, N, Init(T), Run(0));
    s := ReachStep(T, N, s, Run(0));
    s := ReachStep(T, N, s, Run(1));
    s := ReachStep(T, N, s, Run(1));
    assert s.threads == Init(T).threads[0 := Thread(Load, 0, 0)][1 := Thread(Xchg, 0, 0)];
  }

  /** From there thread 1 exchanges in 2 and goes to wait, and thread 0 unlocks. */
  lemma UnlockedTrace(T: nat, N: nat) returns (s: State)
    requires T >= 2 && N >= 1
    ensures Reachable(T, N, s)
    ensures s == State(0, 1, Init(T).threads[0 := Thread(Wake, 0, 0)][1 := Thread(Wait, 0, 0)])
  {
    s := QueuedTrace(T, N);
    s := ReachStep(T, N, s, Run(1));
    s := ReachStep(T, N, s, Run(0));
    s := ReachStep(T, N, s, Run(0));
    s := ReachStep(T, N, s, Run(0));
    assert s.threads == Init(T).threads[0 := Thread(Wake, 0, 0)][1 := Thread(Wait, 0, 0)];
  }

  /** Thread 0 locks and thread 1 queues behind it; thread 0 unlocks, and before its futex_wake
      thread 2 takes the fast path: the word is 1 while thread 1 sleeps. */
  lemma BargingTrace(T: nat, N: nat) returns (s: State)
    requires T >= 3 && N >= 1
    ensures Reachable(T, N, s) && s.m == 1 && Queued(s, 1)
  {
    s := QueuedTrace(T, N);
    s := ReachStep(T, N, s, Run(1));
    s := ReachStep(T, N, s, Run(1));
    s := ReachStep(T, N, s, Run(0));
    s := ReachStep(T, N, s, Run(0));
    s := ReachStep(T, N, s, Run(0));
    s := ReachStep(T, N, s, Run(2));
    s := ReachStep(T, N, s, Run(2));
  }

  /** Thread 0 finds nobody to wake, and locks again by the fast path while thread 1 is still on
      its way into the queue. */
  lemma SecondRoundTrace(T: nat, N: nat) returns (s: State)
    requires T >= 2 && N >= 2
    ensures Reachable(T, N, s) && s.m == 1 && Waiting(s, 1)
  {
    s := UnlockedTrace(T, N);
    s := ReachStep(T, N, s, Run(0));
    s := ReachStep(T, N, s, Run(0));
    s := ReachStep(T, N, s, Run(0));
  }

  /** A thread that lost the fast path but finds the lock free at its exchange holds it with the
      word at 2, and nobody waits. */
  lemma LateWinnerTrace(T: nat, N: nat) returns (s: State)
    requires T >= 2 && N >= 1
    ensures Reachable(T, N, s) && !TwoMeansSomeWaiting(s)
  {
    s := QueuedTrace(T, N);
    s := ReachStep(T, N, s, Run(0));
    s := ReachStep(T, N, s, Run(0));
    s := ReachStep(T, N, s, Run(0));
    s := ReachStep(T, N, s, Run(1));
  }

  /** Of queued threads, the documented reading of 1 holds in every reachable state exactly when
      there are at most two threads (or nothing to do). */
  lemma CommentOnOne(T: nat, N: nat)
    ensures (forall s :: Reachable(T, N, s) ==> OneMeansNoneQueued(s)) <==> T <= 2 || N == 0
  {
    if T > 2 && N > 0 {
      var s := BargingTrace(T, N);
      assert !OneMeansNoneQueued(s);
    } else {
      forall s | Reachable(T, N, s)
        ensures OneMeansNoneQueued(s)
      {
        ReachableInv(T, N, s);
        if N == 0 {
          NeverContended(T, N, s);
          assert forall w: nat :: Queued(s, w) ==> Waiting(s, w);
        } else {
          var run :| Possible(N, Init(T), run) && Exec(N, Init(T), run) == s;
          InitInv(T, N);
          PartneredRun(N, Init(T), run);
        }
      }
    }
  }

  /** Of waiting threads, it holds exactly when there is one thread, or two with one round each
      (or nothing to do). */
  lemma CommentOnOneWidely(T: nat, N: nat)
    ensures (forall s :: Reachable(T, N, s) ==> OneMeansNoneWaiting(s)) <==>
            T <= 1 || N == 0 || (T == 2 && N == 1)
  {
    if T > 2 && N > 0 {
      var s := BargingTrace(T, N);
      assert Waiting(s, 1);
    } else if T == 2 && N > 1 {
      var s := SecondRoundTrace(T, N);
      assert !OneMeansNoneWaiting(s);
    } else {
      forall s | Reachable(T, N, s)
        ensures OneMeansNoneWaiting(s)
      {
        if T <= 1 || N == 0 {
          NeverContended(T, N, s);
        } else {
          ReachableInv(T, N, s);
          var run :| Possible(N, Init(T), run) && Exec(N, Init(T), run) == s;
          InitInv(T, N);
          OneRoundRun(Init(T), run);
          OneRoundMeaning(s);
        }
      }
    }
  }

  /** The documented reading of 2, in either sense, holds in every reachable state exactly when
      there is at most one thread (or nothing to do): then the word is never 2. */
  lemma CommentOnTwo(T: nat, N: nat)
    ensures (forall s :: Reachable(T, N, s) ==> TwoMeansSomeQueued(s)) <==> T <= 1 || N == 0
    ensures (forall s :: Reachable(T, N, s) ==> TwoMeansSomeWaiting(s)) <==> T <= 1 || N == 0
  {
    if T > 1 && N > 0 {
      var s := LateWinnerTrace(T, N);
      assert forall w: nat :: Queued(s, w) ==> Waiting(s, w);
      assert !TwoMeansSomeQueued(s);
    } else {
      forall s | Reachable(T, N, s)
        ensures s.m != 2
      {
        NeverContended(T, N, s);
      }
    }
  }
}
