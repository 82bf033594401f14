/** The buddy arena as its blocks and its free lists: what `buddy_alloc` and `buddy_free` do to
    them, and why the free blocks are determined by the live ones. Addresses are page numbers
    counted from `base`. */
module BuddyLayout {
  import opened BuddyArithmetic
  import opened Lists

  /** A block of 2^order pages. */
  datatype Block = Block(order: nat, free: bool)

  /** Blocks by their first page. */
  type Blocks = map<int, Block>

  /** An arena of 2^K pages, and its free lists by order. A block that an operation holds in its
      hands between two steps counts as not free. */
  datatype Arena = Arena(K: nat, blocks: Blocks, lists: seq<seq<int>>)

  function End(B: Blocks, a: int): int
    requires a in B
  {
    a + Pow2(B[a].order)
  }

  ghost predicate Followed(K: nat, B: Blocks, a: int)
    requires a in B
  {
    End(B, a) == Pow2(K) || End(B, a) in B
  }

  /** Every block lies in the arena, aligned to its size. */
  ghost predicate Placed(K: nat, B: Blocks) {
    forall a :: a in B ==> 0 <= a && B[a].order <= K && Aligned(a, B[a].order) && End(B, a) <= Pow2(K)
  }

  ghost predicate Ordered(B: Blocks) {
    forall a, b :: a in B && b in B && a < b ==> End(B, a) <= b
  }

  ghost predicate Chained(K: nat, B: Blocks) {
    forall a {:trigger Followed(K, B, a)} :: a in B ==> Followed(K, B, a)
  }

  /** The blocks partition the arena. */
  ghost predicate Tiled(K: nat, B: Blocks) {
    0 in B && Placed(K, B) && Ordered(B) && Chained(K, B)
  }

  /** No two buddies are both free. */
  ghost predicate NoFreeBuddies(K: nat, B: Blocks) {
    forall a, c :: a in B && c in B && B[a].free && B[c].free && B[a].order == B[c].order < K
      ==> Buddy(a, B[a].order) != c
  }

  /** List o holds each free block of order o once and nothing else. */
  ghost predicate Listed(B: Blocks, o: nat, list: seq<int>) {
    && NoDup(list)
    && forall x :: x in list <==> x in B && B[x] == Block(o, true)
  }

  ghost predicate AllListed(s: Arena) {
    && |s.lists| == s.K + 1
    && forall o :: 0 <= o <= s.K ==> Listed(s.blocks, o, s.lists[o])
  }

  ghost predicate Inv(s: Arena) {
    Tiled(s.K, s.blocks) && NoFreeBuddies(s.K, s.blocks) && AllListed(s)
  }

  /** The blocks handed out and not yet freed, with their orders. */
  ghost function Live(B: Blocks): map<int, nat> {
    map a | a in B && !B[a].free :: B[a].order
  }

  // ---------- The operations ----------

  function Empty(K: nat): seq<seq<int>> {
    seq(K + 1, _ => [])
  }

  function Init(K: nat): Arena {
    Arena(K, map[0 := Block(K, true)], Empty(K)[K := [0]])
  }

  /** The least order from o up whose blocks hold `pages` pages. */
  function OrderFrom(o: nat, pages: int): (r: nat)
    ensures o <= r && pages <= Pow2(r)
    ensures o < r ==> Pow2(r - 1) < pages
    decreases pages - Pow2(o)
  {
    if Pow2(o) >= pages then o else OrderFrom(o + 1, pages)
  }

  function OrderOf(pages: int): nat { OrderFrom(0, pages) }

  /** The first nonempty list from o up. */
  function FirstOrder(lists: seq<seq<int>>, o: nat): (r: nat)
    requires o <= |lists|
    ensures o <= r <= |lists|
    ensures forall j :: o <= j < r ==> lists[j] == []
    ensures r < |lists| ==> lists[r] != []
    decreases |lists| - o
  {
    if o == |lists| || lists[o] != [] then o else FirstOrder(lists, o + 1)
  }

  /** `fl_pop(o)`. */
  function Take(s: Arena, o: nat): Arena
    requires o < |s.lists| && s.lists[o] != []
  {
    var b := s.lists[o][0];
    s.(blocks := s.blocks[b := Block(o, false)], lists := s.lists[o := s.lists[o][1..]])
  }

  /** Keep the lower half of b, list the upper. */
  function SplitOnce(s: Arena, b: int): Arena
    requires b in s.blocks && 0 < s.blocks[b].order <= |s.lists|
  {
    var o := s.blocks[b].order - 1;
    var c := b + Pow2(o);
    s.(blocks := s.blocks[b := Block(o, false)][c := Block(o, true)], lists := s.lists[o := [c] + s.lists[o]])
  }

  function SplitTo(s: Arena, b: int, order: nat): Arena
    requires b in s.blocks && order <= s.blocks[b].order <= |s.lists|
    decreases s.blocks[b].order
  {
    if s.blocks[b].order == order then s else SplitTo(SplitOnce(s, b), b, order)
  }

  /** `buddy_alloc`: the new arena, and the block or NULL. */
  ghost function Alloc(s: Arena, pages: int): (Arena, int)
    requires Inv(s)
  {
    var order := OrderOf(pages);
    if order > s.K then (s, NULL) else
      var o := FirstOrder(s.lists, order);
      if o > s.K then (s, NULL) else
        var b := s.lists[o][0];
        (SplitTo(Take(s, o), b, order), b)
  }

  /** p's buddy is on the free list of p's order. */
  predicate CanMerge(s: Arena, p: int) {
    p in s.blocks && s.blocks[p].order < s.K && s.blocks[p].order < |s.lists|
    && Buddy(p, s.blocks[p].order) in s.lists[s.blocks[p].order]
  }

  function Lower(p: int, c: int): int { if c < p then c else p }

  function MergeOnce(s: Arena, p: int): Arena
    requires CanMerge(s, p)
  {
    var o := s.blocks[p].order;
    var c := Buddy(p, o);
    Arena(s.K, (s.blocks - {p, c})[Lower(p, c) := Block(o + 1, false)], s.lists[o := Remove(s.lists[o], c)])
  }

  /** `fl_push(o, p)`. */
  function Give(s: Arena, p: int): Arena
    requires p in s.blocks && s.blocks[p].order < |s.lists|
  {
    var o := s.blocks[p].order;
    s.(blocks := s.blocks[p := Block(o, true)], lists := s.lists[o := [p] + s.lists[o]])
  }

  /** `buddy_free` of the live block p. */
  function Free(s: Arena, p: int): Arena
    requires p in s.blocks && s.blocks[p].order <= s.K < |s.lists|
    decreases s.K - s.blocks[p].order
  {
    if CanMerge(s, p) then
      Free(MergeOnce(s, p), Lower(p, Buddy(p, s.blocks[p].order)))
    else Give(s, p)
  }

  /** A call by the program: `buddy_alloc(pages)` or `buddy_free(p, pages)`. */
  datatype Op = Grab(pages: int) | Release(p: int, pages: int)

  /** `buddy_free` takes a live block with a page count of its order. */
  ghost predicate Releasable(s: Arena, p: int, pages: int) {
    p in s.blocks && !s.blocks[p].free && s.blocks[p].order == OrderOf(pages)
  }

  ghost predicate Legal(s: Arena, op: Op) {
    op.Release? ==> Releasable(s, op.p, op.pages)
  }

  ghost function Step(s: Arena, op: Op): Arena
    requires Inv(s) && Legal(s, op)
  {
    match op
    case Grab(pages) => Alloc(s, pages).0
    case Release(p, _) => Free(s, p)
  }

  // ---------- Tiling ----------

  lemma {:induction false} Cover(K: nat, B: Blocks, a: int, x: int) returns (c: int)
    requires Tiled(K, B) && a in B && a <= x < Pow2(K)
    ensures c in B && c <= x < End(B, c)
    decreases x - a
  {
    if x < End(B, a) {
      c := a;
    } else {
      assert Followed(K, B, a);
      c := Cover(K, B, End(B, a), x);
    }
  }

  lemma InitInv(K: nat)
    ensures Inv(Init(K)) && Live(Init(K).blocks) == map[]
  {
    AlignedPow2(K, K);
    assert Followed(K, Init(K).blocks, 0);
  }

  /** Changing only whether b is free. */
  lemma RetagTiled(K: nat, B: Blocks, b: int, free: bool)
    requires Tiled(K, B) && b in B
    ensures Tiled(K, B[b := Block(B[b].order, free)])
  {
    var B' := B[b := Block(B[b].order, free)];
    assert Placed(K, B') && Ordered(B');
    forall a | a in B'
      ensures Followed(K, B', a)
    {
      assert Followed(K, B, a);
    }
  }

  ghost function Halved(B: Blocks, b: int): Blocks
    requires b in B && 0 < B[b].order
  {
    var o := B[b].order - 1;
    B[b := Block(o, false)][b + Pow2(o) := Block(o, true)]
  }

  lemma HalvedPlaced(K: nat, B: Blocks, b: int)
    requires Placed(K, B) && Ordered(B) && b in B && 0 < B[b].order
    ensures var B', c := Halved(B, b), b + Pow2(B[b].order - 1);
      Placed(K, B') && Ordered(B') && c !in B && End(B', b) == c && End(B', c) == End(B, b)
  {
    var o := B[b].order - 1;
    var c, B' := b + Pow2(o), Halved(B, b);
    assert Aligned(b, o) && Aligned(c, o) && c + Pow2(o) == End(B, b) by { HalfBlock(b, o); }
    assert c !in B;
    assert Placed(K, B');
    assert Ordered(B');
  }

  lemma SplitTiled(K: nat, B: Blocks, b: int)
    requires Tiled(K, B) && b in B && 0 < B[b].order
    ensures Tiled(K, Halved(B, b)) && b + Pow2(B[b].order - 1) !in B
  {
    var B' := Halved(B, b);
    HalvedPlaced(K, B, b);
    forall a | a in B'
      ensures Followed(K, B', a)
    {
      assert Followed(K, B, b);
      if a in B { assert Followed(K, B, a); }
    }
  }

  /** A block and its buddy at the same order become one block at the next. */
  ghost function Paired(B: Blocks, p: int, c: int, free: bool): Blocks
    requires p in B
  {
    (B - {p, c})[Lower(p, c) := Block(B[p].order + 1, free)]
  }

  lemma PairedPlaced(K: nat, B: Blocks, p: int, c: int, free: bool)
    requires Placed(K, B) && Ordered(B)
    requires p in B && c in B && B[p].order == B[c].order < K && c == Buddy(p, B[p].order)
    ensures var B', lo := Paired(B, p, c, free), Lower(p, c);
      && Placed(K, B') && Ordered(B') && c != p
      && lo in B && End(B, lo) == p + c - lo && End(B', lo) == End(B, p + c - lo)
  {
    BuddyBlock(p, B[p].order, K);
  }

  lemma MergeTiled(K: nat, B: Blocks, p: int, c: int, free: bool)
    requires Tiled(K, B) && p in B && c in B && B[p].order == B[c].order < K && c == Buddy(p, B[p].order)
    ensures Tiled(K, Paired(B, p, c, free))
  {
    var B', lo := Paired(B, p, c, free), Lower(p, c);
    PairedPlaced(K, B, p, c, free);
    forall a | a in B'
      ensures Followed(K, B', a)
    {
      assert Followed(K, B, a) && Followed(K, B, if p < c then c else p);
    }
  }

  // ---------- Every step keeps the invariant ----------

  lemma TakeInv(s: Arena, o: nat)
    requires Inv(s) && o <= s.K && s.lists[o] != []
    ensures var b := s.lists[o][0];
      && Inv(Take(s, o)) && b in s.blocks && s.blocks[b] == Block(o, true)
      && Live(Take(s, o).blocks) == Live(s.blocks)[b := o]
  {
    var b, t := s.lists[o][0], Take(s, o);
    assert Listed(s.blocks, o, s.lists[o]) && b in s.lists[o];
    RetagTiled(s.K, s.blocks, b, false);
    forall j | 0 <= j <= s.K
      ensures Listed(t.blocks, j, t.lists[j])
    {
      assert Listed(s.blocks, j, s.lists[j]);
      assert j == o ==> s.lists[o] == [b] + t.lists[o];
    }
  }

  lemma SplitLists(s: Arena, b: int)
    requires AllListed(s) && b in s.blocks && !s.blocks[b].free && 0 < s.blocks[b].order <= s.K
    requires b + Pow2(s.blocks[b].order - 1) !in s.blocks
    ensures AllListed(SplitOnce(s, b))
    ensures Live(SplitOnce(s, b).blocks) == Live(s.blocks)[b := s.blocks[b].order - 1]
  {
    var t := SplitOnce(s, b);
    forall j | 0 <= j <= s.K
      ensures Listed(t.blocks, j, t.lists[j])
    {
      assert Listed(s.blocks, j, s.lists[j]);
    }
  }

  lemma HalvedNoFreeBuddies(K: nat, B: Blocks, b: int)
    requires Placed(K, B) && NoFreeBuddies(K, B) && b in B && !B[b].free && 0 < B[b].order
    requires Tiled(K, Halved(B, b)) && b + Pow2(B[b].order - 1) !in B
    ensures NoFreeBuddies(K, Halved(B, b))
  {
    var B', o := Halved(B, b), B[b].order - 1;
    var c := b + Pow2(o);
    HalfBuddy(K, B', b, c);
    forall x, y | x in B' && y in B' && B'[x].free && B'[y].free && B'[x].order == B'[y].order < K
      ensures Buddy(x, B'[x].order) != y
    {
      if x != c && y != c {
        assert x in B && y in B && B[x] == B'[x] && B[y] == B'[y];
      }
    }
  }

  lemma SplitInv(s: Arena, b: int)
    requires Inv(s) && b in s.blocks && !s.blocks[b].free && 0 < s.blocks[b].order
    ensures s.blocks[b].order <= s.K
    ensures Inv(SplitOnce(s, b))
    ensures Live(SplitOnce(s, b).blocks) == Live(s.blocks)[b := s.blocks[b].order - 1]
  {
    SplitTiled(s.K, s.blocks, b);
    HalvedNoFreeBuddies(s.K, s.blocks, b);
    SplitLists(s, b);
  }

  /** The upper half's buddy is the lower half, from either side. */
  lemma HalfBuddy(K: nat, B: Blocks, b: int, c: int)
    requires Tiled(K, B) && b in B && c in B && B[b].order == B[c].order < K && c == b + Pow2(B[b].order)
    requires Aligned(b, B[b].order + 1)
    ensures Buddy(c, B[c].order) == b
    ensures forall a :: a in B && B[a].order == B[c].order && Buddy(a, B[a].order) == c ==> a == b
  {
    var o := B[b].order;
    Halves(b, o);
    forall a | a in B && B[a].order == o && Buddy(a, o) == c
      ensures a == b
    {
      BuddyBlock(a, o, K);
    }
  }

  lemma MergeLists(s: Arena, p: int)
    requires Inv(s) && p in s.blocks && !s.blocks[p].free && CanMerge(s, p)
    ensures AllListed(MergeOnce(s, p))
  {
    var o := s.blocks[p].order;
    var c, t := Buddy(p, o), MergeOnce(s, p);
    assert Listed(s.blocks, o, s.lists[o]);
    RemoveKeeps(s.lists[o], c);
    forall j | 0 <= j <= s.K
      ensures Listed(t.blocks, j, t.lists[j])
    {
      assert Listed(s.blocks, j, s.lists[j]);
    }
  }

  lemma PairedNoFreeBuddies(K: nat, B: Blocks, p: int, c: int)
    requires NoFreeBuddies(K, B) && p in B
    ensures NoFreeBuddies(K, Paired(B, p, c, false))
  {
    var B' := Paired(B, p, c, false);
    forall x, y | x in B' && y in B' && B'[x].free && B'[y].free && B'[x].order == B'[y].order < K
      ensures Buddy(x, B'[x].order) != y
    {
      assert x in B && y in B && B[x] == B'[x] && B[y] == B'[y];
    }
  }

  lemma MergeInv(s: Arena, p: int)
    requires Inv(s) && p in s.blocks && !s.blocks[p].free && CanMerge(s, p)
    ensures var o := s.blocks[p].order; var c := Buddy(p, o);
      && c in s.blocks && s.blocks[c] == Block(o, true)
      && Inv(MergeOnce(s, p))
      && Live(MergeOnce(s, p).blocks) == (Live(s.blocks) - {p})[Lower(p, c) := o + 1]
  {
    var o := s.blocks[p].order;
    var c := Buddy(p, o);
    assert Listed(s.blocks, o, s.lists[o]);
    MergeTiled(s.K, s.blocks, p, c, false);
    PairedNoFreeBuddies(s.K, s.blocks, p, c);
    assert MergeOnce(s, p).blocks == Paired(s.blocks, p, c, false);
    MergeLists(s, p);
  }

  lemma GiveInv(s: Arena, p: int)
    requires Inv(s) && p in s.blocks && !s.blocks[p].free && !CanMerge(s, p)
    ensures s.blocks[p].order <= s.K
    ensures Inv(Give(s, p)) && Live(Give(s, p).blocks) == Live(s.blocks) - {p}
  {
    var o, t := s.blocks[p].order, Give(s, p);
    RetagTiled(s.K, s.blocks, p, true);
    assert Listed(s.blocks, o, s.lists[o]);
    forall a, c | a in t.blocks && c in t.blocks && t.blocks[a].free && t.blocks[c].free
                  && t.blocks[a].order == t.blocks[c].order < s.K
      ensures Buddy(a, t.blocks[a].order) != c
    {
      BuddyBlock(a, t.blocks[a].order, s.K);
    }
    forall j | 0 <= j <= s.K
      ensures Listed(t.blocks, j, t.lists[j])
    {
      assert Listed(s.blocks, j, s.lists[j]);
    }
  }

  lemma {:induction false} SplitToInv(s: Arena, b: int, order: nat)
    requires Inv(s) && b in s.blocks && !s.blocks[b].free && order <= s.blocks[b].order
    ensures s.blocks[b].order <= s.K
    ensures var t := SplitTo(s, b, order);
      Inv(t) && t.K == s.K && b in t.blocks && t.blocks[b] == Block(order, false)
      && Live(t.blocks) == Live(s.blocks)[b := order]
    decreases s.blocks[b].order
  {
    if s.blocks[b].order > order {
      SplitInv(s, b);
      SplitToInv(SplitOnce(s, b), b, order);
    }
  }

  /** What `buddy_alloc` hands out: a block that was not live, of the least order that holds
      `pages`, aligned to it; no other live block changes. */
  lemma AllocGrants(s: Arena, pages: int)
    requires Inv(s)
    ensures Inv(Alloc(s, pages).0) && Alloc(s, pages).0.K == s.K
    ensures Alloc(s, pages).1 == NULL ==> Alloc(s, pages).0 == s
    ensures Alloc(s, pages).1 != NULL ==>
      var (t, b) := Alloc(s, pages);
      var order := OrderOf(pages);
      && b in t.blocks && t.blocks[b] == Block(order, false) && Aligned(b, order) && b + Pow2(order) <= Pow2(s.K)
      && pages <= Pow2(order) && (forall o :: 0 <= o < order ==> Pow2(o) < pages)
      && b !in Live(s.blocks) && Live(t.blocks) == Live(s.blocks)[b := order]
  {
    var order := OrderOf(pages);
    forall o | 0 <= o < order ensures Pow2(o) < pages { Pow2Mono(o, order - 1); }
    if order <= s.K {
      var o := FirstOrder(s.lists, order);
      if o <= s.K {
        TakeInv(s, o);
        SplitToInv(Take(s, o), s.lists[o][0], order);
      }
    }
  }

  lemma {:induction false} FreeInv(s: Arena, p: int)
    requires Inv(s) && p in s.blocks && !s.blocks[p].free
    ensures s.blocks[p].order <= s.K
    ensures Inv(Free(s, p)) && Free(s, p).K == s.K
    ensures Live(Free(s, p).blocks) == Live(s.blocks) - {p}
    decreases s.K - s.blocks[p].order
  {
    if CanMerge(s, p) {
      MergeInv(s, p);
      var lo := Lower(p, Buddy(p, s.blocks[p].order));
      FreeInv(MergeOnce(s, p), lo);
      assert (Live(s.blocks) - {p})[lo := s.blocks[p].order + 1] - {lo} == Live(s.blocks) - {p};
    } else {
      GiveInv(s, p);
    }
  }

  lemma StepInv(s: Arena, op: Op)
    requires Inv(s) && Legal(s, op)
    ensures Inv(Step(s, op)) && Step(s, op).K == s.K
  {
    match op
    case Grab(pages) => AllocGrants(s, pages);
    case Release(p, _) => FreeInv(s, p);
  }

  // ---------- Against a bitmap of pages ----------

  /** Page x is in no live block. */
  ghost predicate PageFree(B: Blocks, x: int) {
    forall a :: a in B && !B[a].free ==> !(a <= x < End(B, a))
  }

  /** The aligned run of 2^o pages at x lies in the arena and is wholly free. */
  ghost predicate FreeRun(s: Arena, x: int, o: nat) {
    && 0 <= x && Aligned(x, o) && x + Pow2(o) <= Pow2(s.K)
    && forall y :: x <= y < x + Pow2(o) ==> PageFree(s.blocks, y)
  }

  /** Block c covers the run of 2^o pages at x. */
  ghost predicate Covers(B: Blocks, c: int, x: int, o: nat) {
    c in B && B[c].free && o <= B[c].order && c <= x && x + Pow2(o) <= End(B, c)
  }

  /** An aligned wholly free run is never scattered over smaller blocks: one free block covers
      it. This is what keeping buddies merged is for. */
  lemma {:induction false} RunCovered(s: Arena, x: int, o: nat) returns (c: int)
    requires Inv(s) && FreeRun(s, x, o)
    ensures Covers(s.blocks, c, x, o)
    decreases o
  {
    if o == 0 {
      c := Cover(s.K, s.blocks, 0, x);
      assert PageFree(s.blocks, x);
    } else {
      var y := x + Pow2(o - 1);
      HalfBlock(x, o - 1);
      var c1 := RunCovered(s, x, o - 1);
      var c2 := RunCovered(s, y, o - 1);
      if s.blocks[c1].order >= o {
        WholeCovered(s, c1, x, x, o);
        c := c1;
      } else if s.blocks[c2].order >= o {
        WholeCovered(s, c2, x, y, o);
        c := c2;
      } else {
        // c1 == x and c2 == y would be free buddies
        assert false;
      }
    }
  }

  /** A block of order at least o that contains one page of an aligned run contains it all. */
  lemma WholeCovered(s: Arena, c: int, x: int, y: int, o: nat)
    requires Inv(s) && c in s.blocks && o <= s.blocks[c].order
    requires 0 <= x <= y < x + Pow2(o) && c <= y < End(s.blocks, c) && Aligned(x, o)
    ensures c <= x && x + Pow2(o) <= End(s.blocks, c)
  {
    var p := s.blocks[c].order;
    AlignedLess(c, o, p);
    AlignedPow2(o, p);
    AlignedAdd(c, Pow2(p), o);
    if x < c { AlignedGap(x, c, o); }
    AlignedGap(x, c + Pow2(p), o);
  }

  /** Two aligned blocks of the same order that overlap are the same. */
  lemma ExactBlock(c: int, x: int, o: nat)
    requires 0 <= c <= x < c + Pow2(o) && Aligned(c, o) && Aligned(x, o)
    ensures c == x
  {
    if c < x { AlignedGap(c, x, o); }
  }

  lemma BlockIsRun(s: Arena, c: int, o: nat)
    requires Inv(s) && c in s.blocks && s.blocks[c].free && o <= s.blocks[c].order
    ensures FreeRun(s, c, o)
  {
    AlignedLess(c, o, s.blocks[c].order);
    Pow2Mono(o, s.blocks[c].order);
  }

  /** `buddy_alloc(pages)` fails exactly when no aligned run of pages of the order it needs is
      wholly free. */
  lemma AllocComplete(s: Arena, pages: int)
    requires Inv(s)
    ensures Alloc(s, pages).1 == NULL <==> forall x :: !FreeRun(s, x, OrderOf(pages))
  {
    var order := OrderOf(pages);
    if order > s.K {
      Pow2Mono(s.K, order);
    } else {
      var o := FirstOrder(s.lists, order);
      if o <= s.K {
        var b := s.lists[o][0];
        assert Listed(s.blocks, o, s.lists[o]) && b in s.lists[o];
        BlockIsRun(s, b, order);
      } else {
        forall p | order <= p <= s.K
          ensures forall c :: c in s.blocks ==> s.blocks[c] != Block(p, true)
        {
          assert Listed(s.blocks, p, s.lists[p]);
        }
        forall x
          ensures !FreeRun(s, x, order)
        {
          if FreeRun(s, x, order) {
            var c := RunCovered(s, x, order);
            assert false;
          }
        }
      }
    }
  }

  /** The free blocks read off the bitmap: a free block of order o starts at x exactly when the
      aligned run there is wholly free and the run of the next order around it is not. */
  lemma FreeBlocksFromBitmap(s: Arena, x: int, o: nat)
    requires Inv(s) && 0 <= x && o <= s.K
    ensures x in s.blocks && s.blocks[x] == Block(o, true) <==>
      FreeRun(s, x, o) && (o < s.K ==> !FreeRun(s, Lower(x, Buddy(x, o)), o + 1))
  {
    if FreeRun(s, x, o) {
      var c := RunCovered(s, x, o);
      var p := s.blocks[c].order;
      if o < s.K {
        BuddyBlock(x, o, s.K);
        var lo := Lower(x, Buddy(x, o));
        if p > o {
          WholeCovered(s, c, lo, x, o + 1);
          RunInside(s, c, lo, o + 1);
        } else {
          ExactBlock(c, x, o);
          if FreeRun(s, lo, o + 1) {
            var d := RunCovered(s, lo, o + 1);
          }
        }
      } else {
        ExactBlock(c, x, o);
      }
    }
    if x in s.blocks && s.blocks[x] == Block(o, true) {
      BlockIsRun(s, x, o);
    }
  }

  lemma RunInside(s: Arena, c: int, x: int, o: nat)
    requires Inv(s) && c in s.blocks && s.blocks[c].free && c <= x && x + Pow2(o) <= End(s.blocks, c) && Aligned(x, o)
    ensures FreeRun(s, x, o)
  {
  }

  // ---------- The live blocks determine the arena ----------

  lemma SameRuns(s: Arena, t: Arena, x: int, o: nat)
    requires s.K == t.K && Live(s.blocks) == Live(t.blocks) && FreeRun(s, x, o)
    ensures FreeRun(t, x, o)
  {
    forall y | x <= y < x + Pow2(o)
      ensures PageFree(t.blocks, y)
    {
      assert PageFree(s.blocks, y);
      forall a | a in t.blocks && !t.blocks[a].free
        ensures !(a <= y < End(t.blocks, a))
      {
        assert a in Live(t.blocks);
      }
    }
  }

  lemma SameBlock(s: Arena, t: Arena, a: int)
    requires Inv(s) && Inv(t) && s.K == t.K && Live(s.blocks) == Live(t.blocks) && a in s.blocks
    ensures a in t.blocks && t.blocks[a] == s.blocks[a]
  {
    if s.blocks[a].free {
      var o := s.blocks[a].order;
      FreeBlocksFromBitmap(s, a, o);
      FreeBlocksFromBitmap(t, a, o);
      SameRuns(s, t, a, o);
      if o < s.K {
        var lo := Lower(a, Buddy(a, o));
        if FreeRun(t, lo, o + 1) { SameRuns(t, s, lo, o + 1); }
      }
    } else {
      assert a in Live(s.blocks);
    }
  }

  /** Two arenas with the same live blocks have the same free blocks at every order. */
  lemma Canonical(s: Arena, t: Arena)
    requires Inv(s) && Inv(t) && s.K == t.K && Live(s.blocks) == Live(t.blocks)
    ensures s.blocks == t.blocks
    ensures forall o, x :: 0 <= o <= s.K ==> (x in s.lists[o] <==> x in t.lists[o])
  {
    forall a | a in s.blocks ensures a in t.blocks && t.blocks[a] == s.blocks[a] { SameBlock(s, t, a); }
    forall a | a in t.blocks ensures a in s.blocks && s.blocks[a] == t.blocks[a] { SameBlock(t, s, a); }
    forall o, x | 0 <= o <= s.K
      ensures x in s.lists[o] <==> x in t.lists[o]
    {
      assert Listed(s.blocks, o, s.lists[o]) && Listed(t.blocks, o, t.lists[o]);
    }
  }

  /** Freeing what was just allocated undoes every split. */
  lemma AllocFree(s: Arena, pages: int)
    requires Inv(s) && Alloc(s, pages).1 != NULL
    ensures var (t, b) := Alloc(s, pages);
      Releasable(t, b, pages) && t.blocks[b].order <= t.K < |t.lists| && Free(t, b).blocks == s.blocks
  {
    var (t, b) := Alloc(s, pages);
    AllocGrants(s, pages);
    FreeInv(t, b);
    assert Live(Free(t, b).blocks) == Live(s.blocks);
    Canonical(Free(t, b), s);
  }

  // ---------- The whole outcome of a call ----------

  /** List j has the upper half of b at order j in front. */
  ghost predicate HalfListed(list: seq<int>, list': seq<int>, b: int, j: nat) {
    list' == [b + Pow2(j)] + list
  }

  /** So have the lists from lo up to hi; the others are the same. */
  ghost predicate Halving(l: seq<seq<int>>, l': seq<seq<int>>, b: int, lo: nat, hi: nat) {
    && |l'| == |l|
    && (forall j :: 0 <= j < |l| && lo <= j < hi ==> HalfListed(l[j], l'[j], b, j))
    && (forall j :: 0 <= j < |l| && !(lo <= j < hi) ==> l'[j] == l[j])
  }

  lemma HalvingUp(l: seq<seq<int>>, m: seq<seq<int>>, l': seq<seq<int>>, b: int, lo: nat, o: nat)
    requires lo <= o < |l| == |m| && HalfListed(l[o], m[o], b, o) && Halving(m, l', b, lo, o)
    requires forall j :: 0 <= j < |l| && j != o ==> m[j] == l[j]
    ensures Halving(l, l', b, lo, o + 1)
  {
  }

  /** Splitting down lists the upper halves, one an order. */
  lemma {:induction false} SplitToLists(s: Arena, b: int, order: nat)
    requires b in s.blocks && order <= s.blocks[b].order <= |s.lists|
    ensures var t := SplitTo(s, b, order);
      t.K == s.K && Halving(s.lists, t.lists, b, order, s.blocks[b].order)
    decreases s.blocks[b].order
  {
    if s.blocks[b].order > order {
      var o, m := s.blocks[b].order - 1, SplitOnce(s, b);
      SplitToLists(m, b, order);
      HalvingUp(s.lists, m.lists, SplitTo(m, b, order).lists, b, order, o);
    }
  }

  /** The block handed out is the first on the list of the least order from the one needed up that
      has any; it keeps its address, and the upper halves split off it, one an order, are then
      alone on their lists. No other list changes. */
  ghost predicate CutFrom(s: Arena, b: int, t: Arena) {
    && b in s.blocks && b in t.blocks && t.K == s.K && |s.lists| == |t.lists| == s.K + 1
    && var o, order := s.blocks[b].order, t.blocks[b].order;
      && order <= o <= s.K && s.lists[o] != [] && b == s.lists[o][0] && t.lists[o] == s.lists[o][1..]
      && (forall j :: order <= j < o ==> s.lists[j] == [] && t.lists[j] == [b + Pow2(j)])
      && forall j :: 0 <= j <= s.K && (j < order || o < j) ==> t.lists[j] == s.lists[j]
  }

  lemma TakeSplitLists(s: Arena, o: nat, order: nat, b: int, u: Arena, t: Arena)
    requires |s.lists| == s.K + 1 && order <= o <= s.K && s.lists[o] != [] && b == s.lists[o][0]
    requires forall j :: order <= j < o ==> s.lists[j] == []
    requires b in s.blocks && s.blocks[b].order == o
    requires u == Take(s, o) && t == SplitTo(u, b, order) && b in t.blocks && t.blocks[b].order == order
    ensures CutFrom(s, b, t)
  {
    SplitToLists(u, b, order);
    assert u.lists[o] == s.lists[o][1..];
    assert forall j :: 0 <= j <= s.K && j != o ==> u.lists[j] == s.lists[j];
  }

  lemma AllocExact(s: Arena, pages: int)
    requires Inv(s) && Alloc(s, pages).1 != NULL
    ensures CutFrom(s, Alloc(s, pages).1, Alloc(s, pages).0)
  {
    AllocGrants(s, pages);
    var order := OrderOf(pages);
    var o := FirstOrder(s.lists, order);
    var b := s.lists[o][0];
    assert Listed(s.blocks, o, s.lists[o]) && b in s.lists[o];
    TakeSplitLists(s, o, order, b, Take(s, o), Alloc(s, pages).0);
  }

  /** Entries of the lists that lie in no part of a block are all of them when the block is not
      free. */
  lemma ListsOutside(s: Arena, p: int)
    requires Inv(s) && p in s.blocks && !s.blocks[p].free
    ensures forall j :: 0 <= j <= s.K ==> Outside(s.lists[j], p, End(s.blocks, p)) == s.lists[j]
  {
    forall j | 0 <= j <= s.K
      ensures Outside(s.lists[j], p, End(s.blocks, p)) == s.lists[j]
    {
      assert Listed(s.blocks, j, s.lists[j]);
      OutsideAll(s.lists[j], p, End(s.blocks, p));
    }
  }

  /** The block p came to be part of when it was freed: it heads the list of its order, the entries
      of the buddies merged into it are gone, and the others keep their order. */
  ghost predicate FreedInto(s: Arena, p: int, t: Arena, q: int) {
    && q in t.blocks && t.blocks[q].free && p in s.blocks && q <= p && End(s.blocks, p) <= End(t.blocks, q)
    && |t.lists| == |s.lists| == s.K + 1 && t.blocks[q].order <= s.K
    && forall j :: 0 <= j <= s.K ==>
         t.lists[j] == (if j == t.blocks[q].order then [q] else []) + Outside(s.lists[j], q, End(t.blocks, q))
  }

  /** The merged block spans both halves. */
  lemma MergeSpan(s: Arena, p: int)
    requires Inv(s) && CanMerge(s, p)
    ensures var o := s.blocks[p].order; var c := Buddy(p, o); var lo := Lower(p, c);
      && lo <= p && lo <= c && p + Pow2(o) <= lo + Pow2(o + 1) && c < lo + Pow2(o + 1)
  {
    BuddyBlock(p, s.blocks[p].order, s.K);
  }

  lemma MergedInto(s: Arena, p: int, t: Arena, q: int)
    requires |s.lists| == s.K + 1 && CanMerge(s, p)
    requires var o := s.blocks[p].order; var c := Buddy(p, o); var lo := Lower(p, c);
      && lo <= p && lo <= c && p + Pow2(o) <= lo + Pow2(o + 1) && c < lo + Pow2(o + 1)
      && FreedInto(MergeOnce(s, p), lo, t, q)
    ensures FreedInto(s, p, t, q)
  {
    var o, hi := s.blocks[p].order, End(t.blocks, q);
    var c, m := Buddy(p, o), MergeOnce(s, p);
    RemoveOutside(s.lists[o], c, q, hi);
    assert forall j :: 0 <= j <= s.K && j != o ==> m.lists[j] == s.lists[j];
    forall j | 0 <= j <= s.K
      ensures Outside(m.lists[j], q, hi) == Outside(s.lists[j], q, hi)
    {
    }
  }

  /** With FreeInv and Canonical this fixes the whole arena. */
  lemma {:induction false} FreeExact(s: Arena, p: int) returns (q: int)
    requires Inv(s) && p in s.blocks && !s.blocks[p].free
    ensures s.blocks[p].order <= s.K && FreedInto(s, p, Free(s, p), q)
    decreases s.K - s.blocks[p].order
  {
    FreeInv(s, p);
    if CanMerge(s, p) {
      MergeInv(s, p);
      MergeSpan(s, p);
      var c := Buddy(p, s.blocks[p].order);
      q := FreeExact(MergeOnce(s, p), Lower(p, c));
      MergedInto(s, p, Free(s, p), q);
    } else {
      q := p;
      ListsOutside(s, p);
    }
  }

  /** The last block freed, with the buddies it merged with, is the next of its order handed out,
      whole. */
  lemma LastFreedFirst(s: Arena, p: int, pages: int)
    requires Inv(s) && p in s.blocks && !s.blocks[p].free
    ensures s.blocks[p].order <= s.K && Inv(Free(s, p))
    ensures exists q :: FreedInto(s, p, Free(s, p), q)
    ensures forall q :: FreedInto(s, p, Free(s, p), q) && OrderOf(pages) == Free(s, p).blocks[q].order ==>
              Alloc(Free(s, p), pages).1 == q
  {
    FreeInv(s, p);
    var q := FreeExact(s, p);
  }

  // ---------- Whole runs ----------

  ghost predicate LegalRun(s: Arena, ops: seq<Op>)
    requires Inv(s)
    decreases |ops|
  {
    ops != [] ==> Legal(s, ops[0]) && (StepInv(s, ops[0]); LegalRun(Step(s, ops[0]), ops[1..]))
  }

  ghost function RunOps(s: Arena, ops: seq<Op>): (t: Arena)
    requires Inv(s) && LegalRun(s, ops)
    ensures Inv(t) && t.K == s.K
    decreases |ops|
  {
    if ops == [] then s else StepInv(s, ops[0]); RunOps(Step(s, ops[0]), ops[1..])
  }

  lemma StepKeepsLive(s: Arena, op: Op, b: int)
    requires Inv(s) && Legal(s, op) && b in Live(s.blocks) && !(op.Release? && op.p == b)
    ensures var t := Step(s, op); b in Live(t.blocks) && Live(t.blocks)[b] == Live(s.blocks)[b]
  {
    match op
    case Grab(pages) => AllocGrants(s, pages);
    case Release(p, _) => FreeInv(s, p);
  }

  /** Some call of the run frees b. */
  ghost predicate Frees(ops: seq<Op>, b: int) {
    exists i :: 0 <= i < |ops| && ops[i].Release? && ops[i].p == b
  }

  /** The blocks of `live` that no call of the run frees. */
  ghost function Untouched(live: map<int, nat>, ops: seq<Op>): map<int, nat> {
    map b | b in live && !Frees(ops, b) :: live[b]
  }

  lemma UntouchedOne(live: map<int, nat>, op: Op)
    ensures Within(Untouched(live, [op]), if op.Release? then live - {op.p} else live)
  {
    if op.Release? { assert [op][0] == op && Frees([op], op.p); }
  }

  lemma UntouchedStep(s: Arena, ops: seq<Op>)
    requires Inv(s) && ops != [] && Legal(s, ops[0])
    ensures var live := Untouched(Live(s.blocks), ops);
      && Within(live, Untouched(Live(s.blocks), [ops[0]]))
      && Within(live, Untouched(Live(Step(s, ops[0]).blocks), ops[1..]))
  {
    forall b | b in Untouched(Live(s.blocks), ops)
      ensures !Frees([ops[0]], b) && !Frees(ops[1..], b)
      ensures var t := Step(s, ops[0]); b in Live(t.blocks) && Live(t.blocks)[b] == Live(s.blocks)[b]
    {
      assert !(ops[0].Release? && ops[0].p == b);
      assert forall i {:trigger ops[1..][i]} :: 0 <= i < |ops| - 1 ==> ops[1..][i] == ops[i + 1];
      StepKeepsLive(s, ops[0], b);
    }
  }

  /** A block handed out stays where it is, as large as it is, through any run that does not free
      it. */
  lemma {:induction false} LiveUntilFreed(s: Arena, ops: seq<Op>, b: int)
    requires Inv(s) && LegalRun(s, ops) && b in Live(s.blocks) && !Frees(ops, b)
    ensures var t := RunOps(s, ops); b in Live(t.blocks) && Live(t.blocks)[b] == Live(s.blocks)[b]
    decreases |ops|
  {
    if ops != [] {
      assert !(ops[0].Release? && ops[0].p == b);
      StepKeepsLive(s, ops[0], b);
      StepInv(s, ops[0]);
      assert forall i {:trigger ops[1..][i]} :: 0 <= i < |ops| - 1 ==> ops[1..][i] == ops[i + 1];
      LiveUntilFreed(Step(s, ops[0]), ops[1..], b);
    }
  }

  /** What a call returns; `buddy_free` returns nothing. */
  ghost function Answer(s: Arena, op: Op): int
    requires Inv(s)
  {
    if op.Grab? then Alloc(s, op.pages).1 else NULL
  }

  /** What the calls of a run return, in order. */
  ghost function Answers(s: Arena, ops: seq<Op>): (ps: seq<int>)
    requires Inv(s) && LegalRun(s, ops)
    ensures |ps| == |ops|
    decreases |ops|
  {
    if ops == [] then [] else StepInv(s, ops[0]); [Answer(s, ops[0])] + Answers(Step(s, ops[0]), ops[1..])
  }

  /** The blocks a program holds after calls that answered `ps`. */
  function Held(held: set<int>, ops: seq<Op>, ps: seq<int>): set<int>
    requires |ops| == |ps|
    decreases |ops|
  {
    if ops == [] then held else Held(HeldAfter(held, ops[0], ps[0]), ops[1..], ps[1..])
  }

  function HeldAfter(held: set<int>, op: Op, p: int): set<int> {
    if op.Release? then held - {op.p} else if p == NULL then held else held + {p}
  }

  /** The live blocks after a run are exactly those the program was given and has not freed. */
  lemma {:induction false} RunHeld(s: Arena, ops: seq<Op>)
    requires Inv(s) && LegalRun(s, ops)
    ensures Live(RunOps(s, ops).blocks).Keys == Held(Live(s.blocks).Keys, ops, Answers(s, ops))
    decreases |ops|
  {
    if ops != [] {
      StepInv(s, ops[0]);
      StepHeld(s, ops[0]);
      RunHeld(Step(s, ops[0]), ops[1..]);
    }
  }

  lemma StepHeld(s: Arena, op: Op)
    requires Inv(s) && Legal(s, op)
    ensures Live(Step(s, op).blocks).Keys == HeldAfter(Live(s.blocks).Keys, op, Answer(s, op))
  {
    match op
    case Grab(pages) => AllocGrants(s, pages);
    case Release(p, _) => FreeInv(s, p);
  }

  /** Two runs that leave the same live blocks leave the same free blocks at every order,
      whatever they did before. */
  lemma HistoryIndependence(K: nat, ops: seq<Op>, ops': seq<Op>)
    requires Inv(Init(K)) && LegalRun(Init(K), ops) && LegalRun(Init(K), ops')
    requires Live(RunOps(Init(K), ops).blocks) == Live(RunOps(Init(K), ops').blocks)
    ensures RunOps(Init(K), ops).blocks == RunOps(Init(K), ops').blocks
  {
    Canonical(RunOps(Init(K), ops), RunOps(Init(K), ops'));
  }

  /** When a run has freed everything, in whatever order, the whole arena is one free block. */
  lemma AllFreed(K: nat, ops: seq<Op>)
    requires Inv(Init(K)) && LegalRun(Init(K), ops)
    requires Live(RunOps(Init(K), ops).blocks) == map[]
    ensures RunOps(Init(K), ops) == Init(K)
  {
    var t := RunOps(Init(K), ops);
    InitInv(K);
    Canonical(t, Init(K));
    forall o | 0 <= o <= K
      ensures t.lists[o] == Init(K).lists[o]
    {
      SameList(t.lists[o], Init(K).lists[o]);
    }
  }

  lemma SameList(l: seq<int>, k: seq<int>)
    requires NoDup(l) && (forall x :: x in l <==> x in k) && (k == [] || k == [0])
    ensures l == k
  {
    assert k != [] ==> k[0] in k;
    if l != [] {
      var n := |l| - 1;
      assert l[0] in l && l[n] in l;
    }
  }
}
