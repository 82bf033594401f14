/** The Fisher-Yates shuffle and the circular list built from it: in-place loops over arrays,
    specified by functions on their contents. */
module MemoryHierarchy {
  import opened Arithmetic
  import opened Lists

  // ---------- The shuffle ----------

  function Swap(a: seq<int>, i: nat, j: nat): seq<int>
    requires i < |a| && j < |a|
  {
    a[i := a[j]][j := a[i]]
  }

  /** The draws of one shuffle: js[i] is `rand() % (i + 1)` when the loop stands at i. */
  ghost predicate IsDraw(js: seq<nat>) {
    forall i :: 0 <= i < |js| ==> js[i] <= i
  }

  function Draw(rand: nat -> nat, i: nat): (j: nat)
    ensures j <= i
  {
    rand(i) % (i + 1)
  }

  function Draws(rand: nat -> nat, n: nat): (js: seq<nat>)
    ensures |js| == n && IsDraw(js)
  {
    seq(n, i requires 0 <= i => Draw(rand, i))
  }

  /** The loop from i = |js| - 1 down to 1. */
  function Shuffled(a: seq<int>, js: seq<nat>): (r: seq<int>)
    requires |js| <= |a| && IsDraw(js)
    ensures |r| == |a|
    decreases |js|
  {
    if |js| <= 1 then a
    else
      var i := |js| - 1;
      Shuffled(Swap(a, i, js[i]), js[..i])
  }

  method Shuffle(a: array<int>, n: nat, rand: nat -> nat)
    requires 1 <= n == a.Length
    modifies a
    ensures a[..] == Shuffled(old(a[..]), Draws(rand, n))
  {
    ghost var js := Draws(rand, n);
    var i := n - 1;
    assert js[..n] == js;
    while i > 0
      invariant 0 <= i < n
      invariant Shuffled(a[..], js[..i + 1]) == Shuffled(old(a[..]), js)
    {
      ghost var was := a[..];
      var j := rand(i) % (i + 1);
      var t := a[i];
      a[i] := a[j];
      a[j] := t;
      assert a[..] == Swap(was, i, js[i]);
      assert js[..i + 1][..i] == js[..i];
      i := i - 1;
    }
  }

  /** Nothing is lost or copied, whatever the elements. */
  lemma {:induction false} ShuffledPermutes(a: seq<int>, js: seq<nat>)
    requires |js| <= |a| && IsDraw(js)
    ensures multiset(Shuffled(a, js)) == multiset(a)
    decreases |js|
  {
    if |js| > 1 {
      var i := |js| - 1;
      assert multiset(Swap(a, i, js[i])) == multiset(a);
      ShuffledPermutes(Swap(a, i, js[i]), js[..i]);
    }
  }

  /** Positions the loop has passed are final. */
  lemma {:induction false} Final(a: seq<int>, js: seq<nat>, p: nat)
    requires |js| <= |a| && IsDraw(js) && |js| <= p < |a|
    ensures Shuffled(a, js)[p] == a[p]
    decreases |js|
  {
    if |js| > 1 {
      var i := |js| - 1;
      Final(Swap(a, i, js[i]), js[..i], p);
    }
  }

  lemma SwapNoDup(a: seq<int>, i: nat, j: nat)
    requires i < |a| && j < |a| && NoDup(a)
    ensures NoDup(Swap(a, i, j))
  {
  }

  /** Different draws give different orders of distinct elements. */
  lemma {:induction false} DrawsInjective(a: seq<int>, js: seq<nat>, ks: seq<nat>)
    requires NoDup(a) && |js| == |ks| <= |a| && IsDraw(js) && IsDraw(ks)
    requires Shuffled(a, js) == Shuffled(a, ks)
    ensures js == ks
    decreases |js|
  {
    if |js| > 1 {
      var i := |js| - 1;
      Final(Swap(a, i, js[i]), js[..i], i);
      Final(Swap(a, i, ks[i]), ks[..i], i);
      assert js[i] == ks[i];
      SwapNoDup(a, i, js[i]);
      DrawsInjective(Swap(a, i, js[i]), js[..i], ks[..i]);
      assert js == js[..i] + [js[i]];
      assert ks == ks[..i] + [ks[i]];
    }
  }

  lemma SwapSame(a: seq<int>, i: nat, j: nat, x: int)
    requires i < |a| && j < |a| && x in a
    ensures x in Swap(a, i, j)
  {
    var k :| 0 <= k < |a| && a[k] == x;
    assert Swap(a, i, j)[if k == i then j else if k == j then i else k] == x;
  }

  /** Every order of distinct elements is reached by some draws. */
  lemma {:induction false} DrawsReach(a: seq<int>, q: seq<int>, m: nat) returns (js: seq<nat>)
    requires NoDup(a) && NoDup(q) && |q| == |a| && m <= |a|
    requires forall p :: 0 <= p < |q| ==> q[p] in a
    requires forall p :: m <= p < |a| ==> q[p] == a[p]
    ensures |js| == m && IsDraw(js) && Shuffled(a, js) == q
    decreases m
  {
    if m == 0 {
      js := [];
      assert q == a;
    } else {
      var i := m - 1;
      assert q[i] in a;
      var j :| 0 <= j < |a| && a[j] == q[i];
      var b := Swap(a, i, j);
      SwapNoDup(a, i, j);
      forall p | 0 <= p < |q|
        ensures q[p] in b
      {
        SwapSame(a, i, j, q[p]);
      }
      var ks := DrawsReach(b, q, i);
      js := ks + [j];
      assert js[..i] == ks;
      if i == 0 {
        assert b == a;
      }
    }
  }

  ghost predicate Gives(a: seq<int>, js: seq<nat>, q: seq<int>) {
    |js| == |a| && IsDraw(js) && Shuffled(a, js) == q
  }

  /** Fisher-Yates is unbiased in its draws: each order of distinct elements comes from exactly
      one sequence of draws. */
  lemma ExactlyOneDraw(a: seq<int>, q: seq<int>)
    requires NoDup(a) && NoDup(q) && |q| == |a| && forall p :: 0 <= p < |q| ==> q[p] in a
    ensures exists js: seq<nat> :: Gives(a, js, q) && forall ks: seq<nat> :: Gives(a, ks, q) ==> ks == js
  {
    var js := DrawsReach(a, q, |a|);
    assert Gives(a, js, q);
    forall ks: seq<nat> | Gives(a, ks, q)
      ensures ks == js
    {
      DrawsInjective(a, ks, js);
    }
  }

  // ---------- Drawing without replacement ----------

  /** What an urn holds after a[j] is taken out: the last element fills the hole. */
  function Left(a: seq<int>, j: nat): (r: seq<int>)
    requires j < |a|
    ensures |r| == |a| - 1
  {
    var rest := a[..|a| - 1];
    if j < |rest| then rest[j := a[|a| - 1]] else rest
  }

  /** The elements drawn from the urn, the first drawn last: with k + 1 elements left, the one at
      `rand(k) % (k + 1)`. */
  function Urn(a: seq<int>, rand: nat -> nat): (r: seq<int>)
    ensures |r| == |a|
    decreases |a|
  {
    if a == [] then []
    else
      var j := rand(|a| - 1) % |a|;
      Urn(Left(a, j), rand) + [a[j]]
  }

  /** The loop works in place on the front of the array, and leaves the rest alone. */
  lemma {:induction false} ShuffledFront(a: seq<int>, js: seq<nat>)
    requires |js| <= |a| && IsDraw(js)
    ensures Shuffled(a, js) == Shuffled(a[..|js|], js) + a[|js|..]
    decreases |js|
  {
    var n := |js|;
    if n <= 1 {
      assert a == a[..n] + a[n..];
    } else {
      var i := n - 1;
      var ks, b, c := js[..i], Swap(a, i, js[i]), Swap(a[..n], i, js[i]);
      SwapFront(a, n, i, js[i]);
      ShuffledFront(b, ks);
      ShuffledFront(c, ks);
      assert Shuffled(a, js) == Shuffled(c[..i], ks) + (c[i..] + a[n..]);
      assert Shuffled(a[..n], js) == Shuffled(c[..i], ks) + c[i..];
    }
  }

  lemma SwapFront(a: seq<int>, n: nat, i: nat, j: nat)
    requires i < n <= |a| && j < n
    ensures var b, c := Swap(a, i, j), Swap(a[..n], i, j); b[..i] == c[..i] && b[i..] == c[i..] + a[n..]
  {
    var b, c := Swap(a, i, j), Swap(a[..n], i, j);
    assert b == c + a[n..];
  }

  /** The in-place shuffle draws without replacement. */
  lemma {:induction false} ShuffledIsUrn(a: seq<int>, rand: nat -> nat)
    ensures Shuffled(a, Draws(rand, |a|)) == Urn(a, rand)
    decreases |a|
  {
    var n := |a|;
    if n == 1 {
      assert Left(a, 0) == [] && a == [a[0]];
    } else if n > 1 {
      var i, js := n - 1, Draws(rand, n);
      var j := Draw(rand, i);
      var b := Swap(a, i, j);
      assert js[i] == j && js[..i] == Draws(rand, i);
      ShuffledFront(b, js[..i]);
      assert b[..i] == Left(a, j) && b[i..] == [a[j]];
      ShuffledIsUrn(Left(a, j), rand);
      assert Shuffled(a, js) == Shuffled(b, js[..i]);
      assert Urn(a, rand) == Urn(Left(a, j), rand) + [a[j]];
    }
  }

  // ---------- The circular list ----------

  /** idx holds each of 0 .. |idx| - 1 once. */
  ghost predicate IsPerm(idx: seq<int>) {
    NoDup(idx) && forall x :: x in idx <==> 0 <= x < |idx|
  }

  function Identity(n: nat): seq<int> { seq(n, i => i) }

  lemma {:induction false} ShuffledSame(a: seq<int>, js: seq<nat>)
    requires |js| <= |a| && IsDraw(js) && NoDup(a)
    ensures NoDup(Shuffled(a, js)) && forall x :: x in Shuffled(a, js) <==> x in a
    decreases |js|
  {
    if |js| > 1 {
      var i := |js| - 1;
      var b := Swap(a, i, js[i]);
      SwapNoDup(a, i, js[i]);
      ShuffledSame(b, js[..i]);
      forall x
        ensures x in b <==> x in a
      {
        assert a == Swap(b, i, js[i]);
      }
    }
  }

  lemma IdentityPerm(n: nat)
    ensures IsPerm(Identity(n))
  {
    forall x ensures x in Identity(n) <==> 0 <= x < n {
      if 0 <= x < n { assert Identity(n)[x] == x; }
    }
  }

  /** `(i + 1) % n` for a position i. */
  function Next(i: nat, n: nat): nat { if i + 1 == n then 0 else i + 1 }

  /** `buf[idx[i]] = idx[(i + 1) % n]` for all i. */
  ghost predicate Threaded(buf: seq<int>, idx: seq<int>) {
    && |buf| == |idx|
    && forall i :: 0 <= i < |idx| ==> 0 <= idx[i] < |buf| && buf[idx[i]] == idx[Next(i, |idx|)]
  }

  ghost predicate InRange(buf: seq<int>) {
    forall k :: 0 <= k < |buf| ==> 0 <= buf[k] < |buf|
  }

  /** Follow the list t times from k. */
  function Chase(buf: seq<int>, k: int, t: nat): (r: int)
    requires InRange(buf) && 0 <= k < |buf|
    ensures 0 <= r < |buf|
  {
    if t == 0 then k else buf[Chase(buf, k, t - 1)]
  }

  lemma {:induction false} ThreadedInRange(buf: seq<int>, idx: seq<int>)
    requires Threaded(buf, idx) && IsPerm(idx)
    ensures InRange(buf)
  {
    forall k | 0 <= k < |buf|
      ensures 0 <= buf[k] < |buf|
    {
      assert k in idx;
      var i :| 0 <= i < |idx| && idx[i] == k;
      assert idx[Next(i, |idx|)] in idx;
    }
  }

  /** The position t steps after p. */
  function Pos(p: nat, t: nat, n: nat): (r: nat)
    requires p < n
    ensures r < n
  {
    if t == 0 then p else Next(Pos(p, t - 1, n), n)
  }

  lemma {:induction false} PosIsMod(p: nat, t: nat, n: nat)
    requires p < n
    ensures Pos(p, t, n) == (p + t) % n
  {
    if t == 0 {
      DivUnique(p, n, 0, p);
    } else {
      PosIsMod(p, t - 1, n);
      ModNext(p + t - 1, n);
    }
  }

  lemma {:induction false} PosWraps(p: nat, t: nat, n: nat)
    requires p < n && t <= n
    ensures Pos(p, t, n) == if p + t < n then p + t else p + t - n
  {
    if t > 0 { PosWraps(p, t - 1, n); }
  }

  lemma {:induction false} ChaseFollows(buf: seq<int>, idx: seq<int>, p: nat, t: nat)
    requires Threaded(buf, idx) && InRange(buf) && p < |idx|
    ensures 0 <= idx[p] < |buf| && Chase(buf, idx[p], t) == idx[Pos(p, t, |idx|)]
  {
    if t > 0 { ChaseFollows(buf, idx, p, t - 1); }
  }

  /** After any number of steps the chase from 0 stands where the shuffled order says. */
  lemma ChaseFromZero(buf: seq<int>, idx: seq<int>, p: nat, t: nat)
    requires Threaded(buf, idx) && InRange(buf) && p < |idx| && idx[p] == 0
    ensures Chase(buf, 0, t) == idx[(p + t) % |idx|]
  {
    ChaseFollows(buf, idx, p, t);
    PosIsMod(p, t, |idx|);
  }

  /** The chase from 0 is at x after t steps, before it has gone all the way round. */
  ghost predicate VisitedAt(buf: seq<int>, x: int, t: int)
    requires InRange(buf) && |buf| > 0
  {
    0 <= t < |buf| && Chase(buf, 0, t) == x
  }

  ghost predicate VisitedOnce(buf: seq<int>, x: int)
    requires InRange(buf) && |buf| > 0
  {
    exists t :: VisitedAt(buf, x, t) && forall u :: VisitedAt(buf, x, u) ==> u == t
  }

  /** The list is a single cycle: from slot 0, n steps visit every slot exactly once and return. */
  ghost predicate OneCycle(buf: seq<int>)
    requires InRange(buf) && |buf| > 0
  {
    && Chase(buf, 0, |buf|) == 0
    && forall x :: 0 <= x < |buf| ==> VisitedOnce(buf, x)
  }

  lemma SingleCycle(buf: seq<int>, idx: seq<int>)
    requires Threaded(buf, idx) && IsPerm(idx) && |idx| > 0
    ensures InRange(buf) && OneCycle(buf)
  {
    var n := |idx|;
    ThreadedInRange(buf, idx);
    assert 0 in idx;
    var p :| 0 <= p < n && idx[p] == 0;
    ChaseFollows(buf, idx, p, n);
    PosWraps(p, n, n);
    forall x | 0 <= x < n
      ensures VisitedOnce(buf, x)
    {
      assert x in idx;
      var i :| 0 <= i < n && idx[i] == x;
      VisitedThen(buf, idx, p, i);
    }
  }

  lemma VisitedThen(buf: seq<int>, idx: seq<int>, p: nat, i: nat)
    requires Threaded(buf, idx) && IsPerm(idx) && InRange(buf) && p < |idx| && idx[p] == 0 && i < |idx|
    ensures var t := if i >= p then i - p else i + |idx| - p;
      VisitedAt(buf, idx[i], t) && forall u :: VisitedAt(buf, idx[i], u) ==> u == t
  {
    var n := |idx|;
    var t := if i >= p then i - p else i + n - p;
    ChaseFollows(buf, idx, p, t);
    PosWraps(p, t, n);
    forall u | VisitedAt(buf, idx[i], u)
      ensures u == t
    {
      ChaseFollows(buf, idx, p, u);
      PosWraps(p, u, n);
    }
  }

  /** The second loop of `measure`: thread idx through buf. */
  method Thread(buf: array<int>, idx: array<int>, n: nat)
    requires n == buf.Length == idx.Length && buf != idx && IsPerm(idx[..])
    modifies buf
    ensures Threaded(buf[..], idx[..])
  {
    ghost var order := idx[..];
    for i := 0 to n
      invariant idx[..] == order
      invariant forall j :: 0 <= j < i ==> 0 <= order[j] < n && buf[order[j]] == order[Next(j, n)]
    {
      assert order[i] in order;
      DivUnique(i, n, 0, i);
      ModNext(i, n);
      buf[idx[i]] := idx[(i + 1) % n];
    }
  }

  /** The order of the slots, as `measure` sets it up before threading the list. */
  method MakeOrder(n: nat, rand: nat -> nat) returns (idx: array<int>)
    requires n >= 1
    ensures fresh(idx) && idx.Length == n && IsPerm(idx[..])
    ensures idx[..] == Order(rand, n) && idx[..] == Urn(Identity(n), rand)
  {
    idx := new int[n];
    for i := 0 to n
      invariant forall k :: 0 <= k < i ==> idx[k] == k
    {
      idx[i] := i;
    }
    assert idx[..] == Identity(n);
    Shuffle(idx, n, rand);
    OrderIsUrn(rand, n);
    OrderPerm(rand, n);
  }

  /** The timed loop of `measure`. */
  method Follow(buf: array<int>, iters: nat) returns (k: int)
    requires InRange(buf[..]) && buf.Length > 0
    ensures k == Chase(buf[..], 0, iters)
  {
    k := 0;
    for i := 0 to iters
      invariant 0 <= k < buf.Length && k == Chase(buf[..], 0, i)
    {
      k := buf[k];
    }
  }

  /** The list `measure` builds in n slots. */
  method Build(n: nat, rand: nat -> nat) returns (buf: array<int>)
    requires n >= 1
    ensures fresh(buf) && buf.Length == n
    ensures ListOf(buf[..], rand) && InRange(buf[..])
    ensures Threaded(buf[..], Urn(Identity(n), rand))
  {
    buf := new int[n];
    var idx := MakeOrder(n, rand);
    Thread(buf, idx, n);
    ThreadedInRange(buf[..], idx[..]);
  }

  /** `measure` without its clock: build the list in `buf` and chase it `iters` times. The byte
      count is at least one slot's, and both allocations succeed. */
  method Measure(bytes: nat, iters: nat, rand: nat -> nat) returns (buf: array<int>, k: int)
    requires bytes >= 8
    ensures buf.Length == bytes / 8
    ensures ListOf(buf[..], rand) && InRange(buf[..])
    ensures Threaded(buf[..], Urn(Identity(buf.Length), rand))
    ensures buf.Length > 0 && k == Chase(buf[..], 0, iters)
  {
    var n := bytes / 8;
    buf := Build(n, rand);
    k := Follow(buf, iters);
  }

  ghost function Order(rand: nat -> nat, n: nat): seq<int> {
    Shuffled(Identity(n), Draws(rand, n))
  }

  /** The list threads some shuffled order through buf. */
  ghost predicate ListOf(buf: seq<int>, rand: nat -> nat) {
    Threaded(buf, Order(rand, |buf|))
  }

  lemma OrderPerm(rand: nat -> nat, n: nat)
    ensures |Order(rand, n)| == n && IsPerm(Order(rand, n))
  {
    IdentityPerm(n);
    ShuffledSame(Identity(n), Draws(rand, n));
  }

  /** The order of the list is that of drawing the slots without replacement. */
  lemma OrderIsUrn(rand: nat -> nat, n: nat)
    ensures Order(rand, n) == Urn(Identity(n), rand)
  {
    ShuffledIsUrn(Identity(n), rand);
  }

  /** Every order of the slots is that of some stream ... */
  lemma OrderReaches(q: seq<int>) returns (rand: nat -> nat)
    requires IsPerm(q)
    ensures Order(rand, |q|) == q
  {
    var n := |q|;
    IdentityPerm(n);
    assert |Identity(n)| == n;
    forall p | 0 <= p < n
      ensures q[p] in Identity(n)
    {
      assert q[p] in q;
    }
    var js := DrawsReach(Identity(n), q, n);
    rand := (i: nat) => if i < |js| then js[i] else 0;
    forall i | 0 <= i < n
      ensures rand(i) % (i + 1) == js[i]
    {
      DivUnique(js[i], i + 1, 0, js[i]);
    }
    assert Draws(rand, n) == js;
  }

  /** ... and streams that draw differently give different orders. */
  lemma OrderTellsDraws(rand: nat -> nat, rand': nat -> nat, n: nat)
    requires Order(rand, n) == Order(rand', n)
    ensures forall i :: 0 <= i < n ==> rand(i) % (i + 1) == rand'(i) % (i + 1)
  {
    IdentityPerm(n);
    DrawsInjective(Identity(n), Draws(rand, n), Draws(rand', n));
    forall i | 0 <= i < n
      ensures rand(i) % (i + 1) == rand'(i) % (i + 1)
    {
      assert Draws(rand, n)[i] == Draws(rand', n)[i];
    }
  }

  /** Whatever `rand` returns, the list `measure` builds is one cycle through every slot. */
  lemma MeasuredCycle(buf: seq<int>, rand: nat -> nat)
    requires ListOf(buf, rand) && |buf| > 0
    ensures InRange(buf) && OneCycle(buf)
  {
    OrderPerm(rand, |buf|);
    SingleCycle(buf, Order(rand, |buf|));
  }
}
