/** Reaping children under SIGCHLD, which is not queued: one pending bit, and the signal blocked
    while its handler runs. Forks, exits, deliveries and the handler's steps interleave freely. */
module Reaper {

  datatype Child = Running | Zombie | Reaped

  /** Where the parent stands: in `main`, about to call `waitpid` in the handler, or about to run
      `reaped++` after a `waitpid` that returned a child. */
  datatype Pc = InMain | Waiting | Counting

  datatype State = State(kids: seq<Child>, pending: bool, pc: Pc, reaped: nat)

  /** One step. `Exit(c)` makes child c a zombie and raises the signal; `Reap(c)` is a `waitpid`
      that returns c, and `Leave` one that finds no zombie. */
  datatype Action = Fork | Exit(c: nat) | Deliver | Reap(c: nat) | Count | Leave

  /** The program with `n` children. With `loops` false, the handler is the one the source's
      comment warns against: it reaps one child per signal. */
  datatype Program = Program(n: nat, loops: bool)

  const Init: State := State([], false, InMain, 0)

  ghost predicate Is(s: State, c: nat, k: Child) { c < |s.kids| && s.kids[c] == k }

  ghost predicate Enabled(g: Program, s: State, a: Action) {
    match a
    case Fork => s.pc == InMain && |s.kids| < g.n
    case Exit(c) => Is(s, c, Running)
    case Deliver => s.pc == InMain && s.pending
    case Reap(c) => s.pc == Waiting && Is(s, c, Zombie)
    case Count => s.pc == Counting
    case Leave => s.pc == Waiting && forall c :: !Is(s, c, Zombie)
  }

  ghost function Apply(g: Program, s: State, a: Action): State
    requires Enabled(g, s, a)
  {
    match a
    case Fork => s.(kids := s.kids + [Running])
    case Exit(c) => s.(kids := s.kids[c := Zombie], pending := true)
    case Deliver => s.(pending := false, pc := Waiting)
    case Reap(c) => s.(kids := s.kids[c := Reaped], pc := Counting)
    case Count => s.(reaped := s.reaped + 1, pc := if g.loops then Waiting else InMain)
    case Leave => s.(pc := InMain)
  }

  ghost predicate Possible(g: Program, s: State, run: seq<Action>)
    decreases |run|
  {
    run == [] || (Enabled(g, s, run[0]) && Possible(g, Apply(g, s, run[0]), run[1..]))
  }

  ghost function Exec(g: Program, s: State, run: seq<Action>): State
    requires Possible(g, s, run)
    decreases |run|
  {
    if run == [] then s else Exec(g, Apply(g, s, run[0]), run[1..])
  }

  ghost predicate Reachable(g: Program, s: State) {
    exists run :: Possible(g, Init, run) && Exec(g, Init, run) == s
  }

  /** Nothing is pending and the handler is not running. */
  predicate Quiet(s: State) { s.pc == InMain && !s.pending }

  // ---------- Invariants ----------

  /** How many children are in state k. */
  function Tally(kids: seq<Child>, k: Child): nat {
    if kids == [] then 0 else (if kids[0] == k then 1 else 0) + Tally(kids[1..], k)
  }

  lemma {:induction false} TallySet(kids: seq<Child>, c: nat, v: Child, k: Child)
    requires c < |kids|
    ensures Tally(kids[c := v], k) == Tally(kids, k) - (if kids[c] == k then 1 else 0) + (if v == k then 1 else 0)
  {
    if c == 0 {
      assert kids[0 := v][1..] == kids[1..];
    } else {
      assert kids[c := v][1..] == kids[1..][c - 1 := v];
      TallySet(kids[1..], c - 1, v, k);
    }
  }

  lemma {:induction false} TallySnoc(kids: seq<Child>, v: Child, k: Child)
    ensures Tally(kids + [v], k) == Tally(kids, k) + if v == k then 1 else 0
  {
    if kids == [] {
      assert [v][1..] == [];
    } else {
      assert (kids + [v])[1..] == kids[1..] + [v];
      TallySnoc(kids[1..], v, k);
    }
  }

  lemma {:induction false} TallyAll(kids: seq<Child>, k: Child)
    ensures Tally(kids, k) <= |kids|
    ensures Tally(kids, k) == |kids| <==> forall c :: 0 <= c < |kids| ==> kids[c] == k
    ensures Tally(kids, k) == 0 <==> forall c :: 0 <= c < |kids| ==> kids[c] != k
  {
    if kids != [] {
      TallyAll(kids[1..], k);
      assert forall c :: 0 <= c < |kids[1..]| ==> kids[1..][c] == kids[c + 1];
      assert forall c :: 0 < c < |kids| ==> kids[c] == kids[1..][c - 1];
    }
  }

  ghost predicate Inv(g: Program, s: State) {
    && |s.kids| <= g.n
    && s.reaped + (if s.pc == Counting then 1 else 0) == Tally(s.kids, Reaped)
  }

  /** A zombie is never forgotten: the signal is pending or a `waitpid` is still to come. */
  ghost predicate Noticed(s: State) {
    forall c: nat :: Is(s, c, Zombie) ==> s.pending || s.pc != InMain
  }

  lemma StepInv(g: Program, s: State, a: Action)
    requires Inv(g, s) && Enabled(g, s, a)
    ensures Inv(g, Apply(g, s, a))
  {
    match a
    case Fork => TallySnoc(s.kids, Running, Reaped);
    case Exit(c) => TallySet(s.kids, c, Zombie, Reaped);
    case Reap(c) => TallySet(s.kids, c, Reaped, Reaped);
    case Deliver =>
    case Count =>
    case Leave =>
  }

  lemma StepNoticed(g: Program, s: State, a: Action)
    requires g.loops && Noticed(s) && Enabled(g, s, a)
    ensures Noticed(Apply(g, s, a))
  {
    var s' := Apply(g, s, a);
    forall c: nat | Is(s', c, Zombie)
      ensures s'.pending || s'.pc != InMain
    {
      assert !a.Exit? ==> Is(s, c, Zombie);
    }
  }

  lemma {:induction false} ExecInv(g: Program, s: State, run: seq<Action>)
    requires Inv(g, s) && Possible(g, s, run)
    ensures Inv(g, Exec(g, s, run))
    ensures g.loops && Noticed(s) ==> Noticed(Exec(g, s, run))
    decreases |run|
  {
    if run != [] {
      StepInv(g, s, run[0]);
      if g.loops && Noticed(s) { StepNoticed(g, s, run[0]); }
      ExecInv(g, Apply(g, s, run[0]), run[1..]);
    }
  }

  /** In every reachable state a zombie implies a pending signal or a handler still at work, and
      `reaped` counts the reaped children but for the one being counted. When all is quiet, every
      child that has exited has been reaped, once. */
  lemma EveryZombieReaped(g: Program, s: State)
    requires g.loops && Reachable(g, s)
    ensures forall c: nat :: Is(s, c, Zombie) ==> s.pending || s.pc != InMain
    ensures s.reaped + (if s.pc == Counting then 1 else 0) == Tally(s.kids, Reaped)
    ensures Quiet(s) ==> s.reaped == |s.kids| - Tally(s.kids, Running)
  {
    var run :| Possible(g, Init, run) && Exec(g, Init, run) == s;
    ExecInv(g, Init, run);
    if Quiet(s) {
      forall c | 0 <= c < |s.kids|
        ensures s.kids[c] != Zombie
      {
        assert !Is(s, c, Zombie);
      }
      TallyTwo(s.kids);
    }
  }

  lemma {:induction false} TallyTwo(kids: seq<Child>)
    requires forall c :: 0 <= c < |kids| ==> kids[c] != Zombie
    ensures Tally(kids, Running) + Tally(kids, Reaped) == |kids|
  {
    if kids != [] { TallyTwo(kids[1..]); }
  }

  // ---------- Every run ends with all children reaped ----------

  /** Steps a state can still take, at most. */
  function Fuel(g: Program, s: State): int {
    6 * (g.n - |s.kids|) + 5 * Tally(s.kids, Running) + 2 * Tally(s.kids, Zombie)
    + (if s.pending then 2 else 0) + (match s.pc case InMain => 0 case Waiting => 1 case Counting => 2)
  }

  lemma StepBurns(g: Program, s: State, a: Action)
    requires Inv(g, s) && Enabled(g, s, a)
    ensures Fuel(g, Apply(g, s, a)) < Fuel(g, s)
  {
    match a
    case Fork =>
      TallySnoc(s.kids, Running, Running);
      TallySnoc(s.kids, Running, Zombie);
    case Exit(c) =>
      TallySet(s.kids, c, Zombie, Running);
      TallySet(s.kids, c, Zombie, Zombie);
    case Reap(c) =>
      TallySet(s.kids, c, Reaped, Running);
      TallySet(s.kids, c, Reaped, Zombie);
    case Deliver =>
    case Count =>
    case Leave =>
  }

  lemma {:induction false} RunBurns(g: Program, s: State, run: seq<Action>)
    requires Inv(g, s) && Possible(g, s, run)
    ensures |run| + Fuel(g, Exec(g, s, run)) <= Fuel(g, s)
    ensures Inv(g, Exec(g, s, run))
    decreases |run|
  {
    if run != [] {
      StepInv(g, s, run[0]);
      StepBurns(g, s, run[0]);
      RunBurns(g, Apply(g, s, run[0]), run[1..]);
    }
  }

  /** No run takes more than six steps a child, and one that cannot go on has reaped them all. */
  lemma AllReapedInTheEnd(g: Program, run: seq<Action>)
    requires g.loops && Possible(g, Init, run)
    ensures |run| <= 6 * g.n
    ensures var s := Exec(g, Init, run);
      (forall a :: !Enabled(g, s, a)) ==>
        s.reaped == |s.kids| == g.n && forall c :: 0 <= c < g.n ==> s.kids[c] == Reaped
  {
    RunBurns(g, Init, run);
    var s := Exec(g, Init, run);
    assert Reachable(g, s);
    if forall a :: !Enabled(g, s, a) {
      assert !Enabled(g, s, Fork) && !Enabled(g, s, Deliver) && !Enabled(g, s, Count) && !Enabled(g, s, Leave);
      forall c | 0 <= c < |s.kids|
        ensures s.kids[c] != Running
      {
        assert !Enabled(g, s, Exit(c));
      }
      if s.pc == Waiting {
        var c :| Is(s, c, Zombie);
        assert Enabled(g, s, Reap(c));
      }
      EveryZombieReaped(g, s);
      TallyAll(s.kids, Running);
      TallyAll(s.kids, Reaped);
    }
  }

  // ---------- What a run leaves behind ----------

  /** How often a occurs in the run. */
  function Times(run: seq<Action>, a: Action): nat {
    if run == [] then 0 else (if run[0] == a then 1 else 0) + Times(run[1..], a)
  }

  /** A child exited since the last delivery, or the signal was pending before and none came. */
  ghost predicate StillPending(before: bool, run: seq<Action>) {
    (before && Deliver !in run) || exists i :: ExitAt(run, i) && Deliver !in run[i..]
  }

  ghost predicate ExitAt(run: seq<Action>, i: int) { 0 <= i < |run| && run[i].Exit? }

  lemma StillPendingFirst(before: bool, run: seq<Action>)
    requires run != []
    ensures var now := run[0].Exit? || (before && run[0] != Deliver);
      StillPending(before, run) <==> StillPending(now, run[1..])
  {
    var rest := run[1..];
    assert run == [run[0]] + rest && run[0..] == run;
    forall i | 0 <= i < |rest|
      ensures rest[i..] == run[i + 1..] && (ExitAt(rest, i) <==> ExitAt(run, i + 1))
    {
    }
    if i :| ExitAt(run, i) && Deliver !in run[i..] {
      if i > 0 { assert ExitAt(rest, i - 1); }
    }
  }

  function Busy(s: State): nat { if s.pc == InMain then 0 else 1 }

  function Has(s: State, c: nat, k: Child): nat { if c < |s.kids| && s.kids[c] == k then 1 else 0 }

  /** From s, a run has forked a child for each Fork; each child that exits does so once, and is
      reaped at most once, by the `waitpid` that returned it; `reaped` goes up once a Count; the
      pending bit says whether a child exited since the last delivery; and a handler ends before
      the next begins. */
  ghost predicate Accounted(g: Program, s: State, run: seq<Action>, e: State) {
    && |e.kids| == |s.kids| + Times(run, Fork)
    && (forall c: nat :: Has(e, c, Reaped) == Has(s, c, Reaped) + Times(run, Reap(c)))
    && (forall c: nat ::
          Has(e, c, Zombie) + Has(e, c, Reaped) == Has(s, c, Zombie) + Has(s, c, Reaped) + Times(run, Exit(c)))
    && e.reaped == s.reaped + Times(run, Count)
    && (e.pending <==> StillPending(s.pending, run))
    && Busy(e) + Times(run, Leave) + (if g.loops then 0 else Times(run, Count)) == Busy(s) + Times(run, Deliver)
  }

  lemma {:induction false} RunAccounted(g: Program, s: State, run: seq<Action>)
    requires Possible(g, s, run)
    ensures Accounted(g, s, run, Exec(g, s, run))
    decreases |run|
  {
    if run != [] {
      var s' := Apply(g, s, run[0]);
      RunAccounted(g, s', run[1..]);
      StillPendingFirst(s.pending, run);
      StepAccounted(g, s, run[0]);
    }
  }

  lemma StepAccounted(g: Program, s: State, a: Action)
    requires Enabled(g, s, a)
    ensures var s' := Apply(g, s, a);
      && |s'.kids| == |s.kids| + (if a == Fork then 1 else 0)
      && (forall c: nat :: Has(s', c, Reaped) == Has(s, c, Reaped) + (if a == Reap(c) then 1 else 0))
      && (forall c: nat :: Has(s', c, Zombie) + Has(s', c, Reaped)
                           == Has(s, c, Zombie) + Has(s, c, Reaped) + (if a == Exit(c) then 1 else 0))
      && s'.pending == (a.Exit? || (s.pending && a != Deliver))
  {
  }

  // ---------- The mistake the comment warns against ----------

  lemma {:induction false} ExecSnoc(g: Program, s: State, run: seq<Action>, a: Action)
    requires Possible(g, s, run) && Enabled(g, Exec(g, s, run), a)
    ensures Possible(g, s, run + [a]) && Exec(g, s, run + [a]) == Apply(g, Exec(g, s, run), a)
    decreases |run|
  {
    if run == [] {
      assert run + [a] == [a];
    } else {
      assert (run + [a])[1..] == run[1..] + [a];
      ExecSnoc(g, Apply(g, s, run[0]), run[1..], a);
    }
  }

  lemma Reach(g: Program, s: State, a: Action) returns (s': State)
    requires Reachable(g, s) && Enabled(g, s, a)
    ensures s' == Apply(g, s, a) && Reachable(g, s')
  {
    var run :| Possible(g, Init, run) && Exec(g, Init, run) == s;
    ExecSnoc(g, Init, run, a);
    s' := Apply(g, s, a);
  }

  /** With at most one child, one `waitpid` per signal is enough. */
  ghost predicate SingleNoticed(s: State) {
    forall c: nat :: Is(s, c, Zombie) ==> s.pending || s.pc == Waiting
  }

  lemma {:induction false} SingleRun(g: Program, s: State, run: seq<Action>)
    requires g.n <= 1 && Inv(g, s) && SingleNoticed(s) && Possible(g, s, run)
    ensures SingleNoticed(Exec(g, s, run))
    decreases |run|
  {
    if run != [] {
      var a, s' := run[0], Apply(g, s, run[0]);
      StepInv(g, s, a);
      forall c: nat | Is(s', c, Zombie)
        ensures s'.pending || s'.pc == Waiting
      {
        assert !a.Exit? ==> Is(s, c, Zombie);
      }
      SingleRun(g, s', run[1..]);
    }
  }

  /** Two children exit before the one signal is delivered: the second stays a zombie. */
  lemma TwoExits(g: Program) returns (s: State)
    requires !g.loops && g.n >= 2
    ensures Reachable(g, s) && Quiet(s) && Is(s, 1, Zombie)
  {
    assert Possible(g, Init, []) && Exec(g, Init, []) == Init;
    s := Reach(g, Init, Fork);
    s := Reach(g, s, Fork);
    s := Reach(g, s, Exit(0));
    s := Reach(g, s, Exit(1));
    s := Reach(g, s, Deliver);
    s := Reach(g, s, Reap(0));
    s := Reach(g, s, Count);
  }

  /** A handler that reaps one child per signal is right exactly when there is at most one child. */
  lemma OneWaitPerSignal(n: nat)
    ensures var g := Program(n, false);
      (forall s :: Reachable(g, s) && Quiet(s) ==> forall c :: !Is(s, c, Zombie)) <==> n <= 1
  {
    var g := Program(n, false);
    if n >= 2 {
      var s := TwoExits(g);
    } else {
      forall s | Reachable(g, s) && Quiet(s)
        ensures forall c :: !Is(s, c, Zombie)
      {
        var run :| Possible(g, Init, run) && Exec(g, Init, run) == s;
        SingleRun(g, Init, run);
      }
    }
  }
}
