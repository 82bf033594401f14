/** The buddy allocator in its own memory: the array `fl` of list heads, and in the first words
    of every free block its `next` pointer and its `order`. Pointers are page numbers counted
    from `base`; `next[x]` and `ord[x]` are the two words at the start of page x, `rest[x, ..]` the
    others, which the allocator never touches. */
module Buddy {
  import opened BuddyArithmetic
  import opened BuddyLayout
  import opened Lists

  const PG_LOG2 := 12
  /** 8-byte words in a page. */
  const PG_WORDS := 512

  // ---------- What the memory says about the lists ----------

  /** The words of the list node at position i. */
  ghost predicate Node(next: seq<int>, ord: seq<int>, list: seq<int>, o: nat, i: int)
    requires 0 <= i < |list|
  {
    0 <= list[i] < |next| == |ord| && next[list[i]] == Nth(list, i + 1) && ord[list[i]] == o
  }

  ghost predicate Thread(head: int, next: seq<int>, ord: seq<int>, list: seq<int>, o: nat) {
    && head == Nth(list, 0)
    && forall i :: 0 <= i < |list| ==> Node(next, ord, list, o, i)
  }

  ghost predicate Threads(heads: seq<int>, next: seq<int>, ord: seq<int>, lists: seq<seq<int>>) {
    && |heads| == |lists| && |next| == |ord|
    && forall o :: 0 <= o < |lists| ==> Thread(heads[o], next, ord, lists[o], o)
  }

  /** No block is on two lists, or twice on one. */
  ghost predicate Separate(lists: seq<seq<int>>) {
    && (forall o :: 0 <= o < |lists| ==> NoDup(lists[o]))
    && forall o, j, x :: 0 <= o < |lists| && 0 <= j < |lists| && x in lists[o] && x in lists[j] ==> o == j
  }

  ghost predicate Unlisted(lists: seq<seq<int>>, b: int) {
    forall o :: 0 <= o < |lists| ==> b !in lists[o]
  }

  lemma PushThreads(heads: seq<int>, next: seq<int>, ord: seq<int>, lists: seq<seq<int>>, o: nat, b: int)
    requires Threads(heads, next, ord, lists) && o < |lists| && 0 <= b < |next| && Unlisted(lists, b)
    ensures Threads(heads[o := b], next[b := heads[o]], ord[b := o], lists[o := [b] + lists[o]])
  {
    var lists', next', ord' := lists[o := [b] + lists[o]], next[b := heads[o]], ord[b := o];
    forall j | 0 <= j < |lists|
      ensures Thread(heads[o := b][j], next', ord', lists'[j], j)
    {
      assert Thread(heads[j], next, ord, lists[j], j);
      forall i | 0 <= i < |lists'[j]|
        ensures Node(next', ord', lists'[j], j, i)
      {
        if j != o {
          assert Node(next, ord, lists[j], j, i) && lists[j][i] in lists[j];
        } else if i > 0 {
          assert Node(next, ord, lists[j], j, i - 1) && lists[j][i - 1] in lists[j];
        }
      }
    }
  }

  lemma PopThreads(heads: seq<int>, next: seq<int>, ord: seq<int>, lists: seq<seq<int>>, o: nat)
    requires Threads(heads, next, ord, lists) && o < |lists| && lists[o] != []
    ensures 0 <= heads[o] < |next|
    ensures Threads(heads[o := next[heads[o]]], next, ord, lists[o := lists[o][1..]])
  {
    assert Thread(heads[o], next, ord, lists[o], o) && Node(next, ord, lists[o], o, 0);
    var lists' := lists[o := lists[o][1..]];
    forall j | 0 <= j < |lists|
      ensures Thread(heads[o := next[heads[o]]][j], next, ord, lists'[j], j)
    {
      assert Thread(heads[j], next, ord, lists[j], j);
      forall i | 0 <= i < |lists'[j]|
        ensures Node(next, ord, lists'[j], j, i)
      {
        assert Node(next, ord, lists[j], j, if j == o then i + 1 else i);
      }
    }
  }

  /** Unlinking position k of list o: its predecessor, or the head, now points past it. */
  lemma CutThreads(heads: seq<int>, next: seq<int>, ord: seq<int>, lists: seq<seq<int>>, o: nat, k: nat,
                   heads': seq<int>, next': seq<int>)
    requires Threads(heads, next, ord, lists) && Separate(lists) && o < |lists| && k < |lists[o]|
    requires heads' == if k == 0 then heads[o := Nth(lists[o], 1)] else heads
    requires k > 0 ==> 0 <= lists[o][k - 1] < |next|
    requires next' == if k == 0 then next else next[lists[o][k - 1] := Nth(lists[o], k + 1)]
    ensures Threads(heads', next', ord, lists[o := Remove(lists[o], lists[o][k])])
  {
    RemoveAt(lists[o], k);
    var lists' := lists[o := lists[o][..k] + lists[o][k + 1..]];
    assert k > 0 ==> lists[o][k - 1] in lists[o];
    forall j | 0 <= j < |lists|
      ensures Thread(heads'[j], next', ord, lists'[j], j)
    {
      assert Thread(heads[j], next, ord, lists[j], j);
      forall i | 0 <= i < |lists'[j]|
        ensures Node(next', ord, lists'[j], j, i)
      {
        var i' := if j == o && i >= k then i + 1 else i;
        assert Node(next, ord, lists[j], j, i') && lists[j][i'] in lists[j];
      }
    }
  }

  // ---------- Blocks that stay untouched ----------

  /** No word of any of these blocks differs. */
  ghost predicate Kept(m: seq<int>, m': seq<int>, live: map<int, nat>) {
    |m| == |m'| && forall b :: b in live ==> SameIn(m, m', b, b + Pow2(live[b]))
  }

  lemma KeptSame(m: seq<int>, live: map<int, nat>)
    ensures Kept(m, m, live)
  {
  }

  lemma KeptSome(m: seq<int>, m': seq<int>, live: map<int, nat>, live': map<int, nat>)
    requires Kept(m, m', live') && Within(live, live')
    ensures Kept(m, m', live)
  {
    forall b | b in live
      ensures SameIn(m, m', b, b + Pow2(live[b]))
    {
      assert SameIn(m, m', b, b + Pow2(live'[b]));
    }
  }

  lemma KeptTrans(m0: seq<int>, m1: seq<int>, m2: seq<int>, live: map<int, nat>, live': map<int, nat>)
    requires Kept(m0, m1, live) && Kept(m1, m2, live') && Within(live, live')
    ensures Kept(m0, m2, live)
  {
    forall b | b in live
      ensures SameIn(m0, m2, b, b + Pow2(live[b]))
    {
      assert SameIn(m0, m1, b, b + Pow2(live[b])) && SameIn(m1, m2, b, b + Pow2(live[b]));
    }
  }

  /** Writing at the start of free blocks touches no live one. */
  lemma FreeWrites(m: seq<int>, m': seq<int>, B: Blocks)
    requires Ordered(B) && |m| == |m'|
    requires forall k :: 0 <= k < |m| && m'[k] != m[k] ==> k in B && B[k].free
    ensures Kept(m, m', Live(B))
  {
  }

  /** The lists of a well-formed arena share nothing, and hold blocks of the arena. */
  lemma ListsSeparate(s: Arena)
    requires Inv(s)
    ensures Separate(s.lists)
    ensures forall o, x :: 0 <= o < |s.lists| && x in s.lists[o] ==> x in s.blocks && s.blocks[x] == Block(o, true)
    ensures forall b :: b in s.blocks && !s.blocks[b].free ==> Unlisted(s.lists, b)
    ensures forall b :: b !in s.blocks ==> Unlisted(s.lists, b)
  {
    forall o, x | 0 <= o < |s.lists| && x in s.lists[o]
      ensures x in s.blocks && s.blocks[x] == Block(o, true)
    {
      assert Listed(s.blocks, o, s.lists[o]);
    }
    forall o | 0 <= o < |s.lists|
      ensures NoDup(s.lists[o])
    {
      assert Listed(s.blocks, o, s.lists[o]);
    }
  }

  /** `(char *)b + half` is the page `2^o` after b, whatever the page size. */
  lemma {:induction false} HalfAddress(b: nat, o: nat, k: nat)
    ensures Shr(Shl(b, k) + Shl(Shl(1, o), k), k) == b + Pow2(o)
  {
    ShlOne(o);
    ShlAdd(b, Pow2(o), k);
    ShrShl(b + Pow2(o), k);
  }

  /** What `buddy_alloc` does once it has found a list: pop, then split down. */
  lemma AllocPlan(s: Arena, pages: int)
    requires Inv(s)
    ensures var order := OrderOf(pages);
      (order > s.K || FirstOrder(s.lists, order) > s.K) ==> Alloc(s, pages) == (s, NULL)
    ensures var order := OrderOf(pages);
      order <= s.K && FirstOrder(s.lists, order) <= s.K ==>
        var o := FirstOrder(s.lists, order);
        var b, t := s.lists[o][0], Take(s, o);
        && Live(t.blocks) - {b} == Live(s.blocks) && b in t.blocks && t.blocks[b] == Block(o, false)
        && Alloc(s, pages) == (SplitTo(t, b, order), b)
  {
    var order := OrderOf(pages);
    if order <= s.K {
      var o := FirstOrder(s.lists, order);
      if o <= s.K {
        TakeInv(s, o);
        assert Live(Take(s, o).blocks) - {s.lists[o][0]} == Live(s.blocks);
      }
    }
  }

  /** Page c is in none of these blocks. */
  ghost predicate Misses(c: int, live: map<int, nat>) {
    forall a :: a in live ==> !(a <= c < a + Pow2(live[a]))
  }

  /** What one round of the split loop may rely on: the upper half is a page of the arena on no
      list, and outside every block but the one in hand. */
  lemma SplitPlan(s: Arena, b: int)
    requires Inv(s) && b in s.blocks && !s.blocks[b].free && 0 < s.blocks[b].order
    ensures 0 <= b && s.blocks[b].order <= s.K
    ensures Inv(SplitOnce(s, b)) && Live(SplitOnce(s, b).blocks) - {b} == Live(s.blocks) - {b}
    ensures var c := b + Pow2(s.blocks[b].order - 1);
      && c < Pow2(s.K) && Unlisted(s.lists, c)
      && Misses(c, Live(s.blocks) - {b})
  {
    SplitInv(s, b);
    SplitTiled(s.K, s.blocks, b);
    HalvedPlaced(s.K, s.blocks, b);
    ListsSeparate(s);
  }

  /** `off ^ bsz` on byte offsets is the buddy's page. */
  lemma {:induction false} BuddyAddress(p: nat, o: nat, k: nat)
    requires Aligned(p, o) && Buddy(p, o) >= 0
    ensures Shr(BitXor(Shl(p, k), Shl(Shl(1, o), k)), k) == Buddy(p, o)
  {
    ShlOne(o);
    XorShift(p, Pow2(o), k);
    XorIsBuddy(p, o);
    ShrShl(Buddy(p, o), k);
  }

  lemma MergePlan(s: Arena, p: int)
    requires Inv(s) && p in s.blocks && !s.blocks[p].free && s.blocks[p].order < s.K
    ensures 0 <= p && Aligned(p, s.blocks[p].order) && Buddy(p, s.blocks[p].order) >= 0
    ensures Separate(s.lists) && Ordered(s.blocks)
    ensures forall o, x :: 0 <= o < |s.lists| && x in s.lists[o] ==> x in s.blocks && s.blocks[x].free
    ensures CanMerge(s, p) <==> Buddy(p, s.blocks[p].order) in s.lists[s.blocks[p].order]
    ensures CanMerge(s, p) ==> Inv(MergeOnce(s, p))
  {
    ListsSeparate(s);
    BuddyBlock(p, s.blocks[p].order, s.K);
    if CanMerge(s, p) { MergeInv(s, p); }
  }

  /** A merge leaves the block in hand one order up, with the same outcome and the same other live
      blocks. */
  lemma MergeGoal(s: Arena, p: int)
    requires Inv(s) && p in s.blocks && !s.blocks[p].free && s.blocks[p].order < s.K < |s.lists|
    ensures Within(Live(s.blocks) - {p}, Live(s.blocks))
    ensures CanMerge(s, p) ==>
      var o := s.blocks[p].order;
      var t, lo := MergeOnce(s, p), Lower(p, Buddy(p, o));
      && lo in t.blocks && t.blocks[lo] == Block(o + 1, false) && t.K == s.K < |t.lists|
      && Free(t, lo) == Free(s, p) && Live(t.blocks) - {lo} == Live(s.blocks) - {p}
  {
    if CanMerge(s, p) { MergeInv(s, p); }
  }

  lemma GivePlan(s: Arena, p: int)
    requires Inv(s) && p in s.blocks && !s.blocks[p].free
    ensures 0 <= p < Pow2(s.K) && s.blocks[p].order <= s.K && Unlisted(s.lists, p)
    ensures !CanMerge(s, p) ==> Free(s, p) == Give(s, p) && Inv(Give(s, p))
    ensures Misses(p, Live(s.blocks) - {p})
  {
    ListsSeparate(s);
    if !CanMerge(s, p) { GiveInv(s, p); }
  }

  lemma KeptButOne(m: seq<int>, c: int, v: int, live: map<int, nat>)
    requires 0 <= c < |m| && Misses(c, live)
    ensures Kept(m, m[c := v], live)
  {
  }

  /** Writing the first words of a page of a live block disturbs no list and no other block. */
  lemma LiveWrite(s: Arena, b: int, x: int, heads: seq<int>, next: seq<int>, ord: seq<int>, v: int, w: int)
    requires Inv(s) && b in s.blocks && !s.blocks[b].free && b <= x < End(s.blocks, b)
    requires Threads(heads, next, ord, s.lists) && |ord| == Pow2(s.K)
    ensures 0 <= x < |ord|
    ensures Threads(heads, next[x := v], ord[x := w], s.lists)
    ensures Kept(next, next[x := v], Live(s.blocks) - {b}) && Kept(ord, ord[x := w], Live(s.blocks) - {b})
  {
    ListsSeparate(s);
    var next', ord' := next[x := v], ord[x := w];
    forall o | 0 <= o < |s.lists|
      ensures Thread(heads[o], next', ord', s.lists[o], o)
    {
      assert Thread(heads[o], next, ord, s.lists[o], o);
      forall i | 0 <= i < |s.lists[o]|
        ensures Node(next', ord', s.lists[o], o, i)
      {
        assert Node(next, ord, s.lists[o], o, i) && s.lists[o][i] in s.lists[o];
      }
    }
  }

  lemma ListHead(heads: seq<int>, next: seq<int>, ord: seq<int>, lists: seq<seq<int>>, o: nat)
    requires Threads(heads, next, ord, lists) && o < |lists|
    ensures heads[o] == NULL <==> lists[o] == []
    ensures heads[o] != NULL ==> heads[o] == lists[o][0]
  {
    assert Thread(heads[o], next, ord, lists[o], o);
    assert lists[o] != [] ==> Node(next, ord, lists[o], o, 0);
  }

  class Allocator {
    const K: nat
    const fl: array<int>
    const next: array<int>
    const ord: array<int>
    const rest: array2<int>
    ghost var s: Arena

    /** The shape of the three arrays. */
    ghost predicate Shaped()
      reads this
    {
      && fl != next && fl != ord && next != ord
      && fl.Length == K + 1 && next.Length == ord.Length == Pow2(K)
      && rest.Length0 == Pow2(K) && rest.Length1 == PG_WORDS - 2
    }

    ghost predicate Holds(lists: seq<seq<int>>)
      reads this, fl, next, ord
    {
      Shaped() && Threads(fl[..], next[..], ord[..], lists)
    }

    ghost predicate Valid()
      reads this, fl, next, ord
    {
      s.K == K && Inv(s) && Holds(s.lists)
    }

    method FlPush(o: nat, b: int, ghost lists: seq<seq<int>>)
      requires Holds(lists) && o < |lists| && 0 <= b < next.Length && Unlisted(lists, b)
      modifies fl, next, ord
      ensures Holds(lists[o := [b] + lists[o]])
      ensures next[..] == old(next[..])[b := old(fl[o])] && ord[..] == old(ord[..])[b := o]
    {
      PushThreads(fl[..], next[..], ord[..], lists, o, b);
      ord[b] := o;
      next[b] := fl[o];
      fl[o] := b;
      assert fl[..] == old(fl[..])[o := b];
      assert next[..] == old(next[..])[b := old(fl[o])] && ord[..] == old(ord[..])[b := o];
    }

    /** `fl_push` of a block that overlaps none of the live ones, which takes the arena to t. */
    method PushBlock(o: nat, b: int, ghost live: map<int, nat>, ghost t: Arena)
      requires Holds(s.lists) && o < |s.lists| && 0 <= b < next.Length && Unlisted(s.lists, b) && Misses(b, live)
      requires t.K == K && Inv(t) && t.lists == s.lists[o := [b] + s.lists[o]]
      modifies fl, next, ord, `s
      ensures Valid() && s == t
      ensures Kept(old(next[..]), next[..], live) && Kept(old(ord[..]), ord[..], live)
    {
      KeptButOne(next[..], b, fl[o], live);
      KeptButOne(ord[..], b, o, live);
      FlPush(o, b, s.lists);
      s := t;
    }

    method FlPop(o: nat, ghost lists: seq<seq<int>>) returns (b: int)
      requires Holds(lists) && o < |lists|
      modifies fl
      ensures lists[o] == [] ==> b == NULL && fl[..] == old(fl[..])
      ensures lists[o] != [] ==> b == lists[o][0] && Holds(lists[o := lists[o][1..]])
    {
      assert Thread(fl[o], next[..], ord[..], lists[o], o);
      assert lists[o] != [] ==> Node(next[..], ord[..], lists[o], o, 0);
      b := fl[o];
      if b != NULL {
        PopThreads(fl[..], next[..], ord[..], lists, o);
        fl[o] := next[b];
        assert fl[..] == old(fl[..])[o := old(next[fl[o]])];
      }
    }

    /** The pointer-to-pointer walk of `fl_remove`: `p` is `&fl[o]` when `slot` is NULL, and
        `&slot->next` otherwise, so `at` is `*p`. */
    method FlRemove(o: nat, target: int, ghost lists: seq<seq<int>>) returns (found: bool)
      requires Holds(lists) && o < |lists| && Separate(lists)
      modifies fl, next
      ensures found <==> target in lists[o]
      ensures Holds(if found then lists[o := Remove(lists[o], target)] else lists)
      ensures forall k :: 0 <= k < next.Length && next[k] != old(next[k]) ==> k in lists[o]
    {
      ghost var list := lists[o];
      assert Thread(fl[o], next[..], ord[..], list, o);
      var slot, at := NULL, fl[o];
      ghost var i := 0;
      while at != NULL
        invariant 0 <= i <= |list| && at == Nth(list, i) && slot == Nth(list, i - 1)
        invariant target !in list[..i]
        decreases |list| - i
      {
        assert Node(next[..], ord[..], list, o, i);
        assert i > 0 ==> Node(next[..], ord[..], list, o, i - 1);
        if at == target {
          if slot == NULL {
            fl[o] := next[at];
          } else {
            next[slot] := next[at];
          }
          CutThreads(old(fl[..]), old(next[..]), ord[..], lists, o, i, fl[..], next[..]);
          return true;
        }
        assert list[..i + 1] == list[..i] + [at];
        slot, at := at, next[at];
        i := i + 1;
      }
      assert i < |list| ==> Node(next[..], ord[..], list, o, i);
      assert list[..i] == list;
      return false;
    }

    // ---------- buddy_init, buddy_alloc, buddy_free ----------

    /** `buddy_init` on a region mmap has granted. */
    constructor (k: nat)
      ensures Valid() && K == k && s == Init(k)
    {
      K := k;
      fl := new int[k + 1](_ => NULL);
      next := new int[Pow2(k)];
      ord := new int[Pow2(k)];
      rest := new int[Pow2(k), PG_WORDS - 2];
      s := Init(k);
      new;
      InitInv(K);
      FlPush(K, 0, Empty(K));
    }

    /** The size loop both operations start with. The argument's bound keeps `sz` in an int. */
    method ComputeOrder(pages: int) returns (order: nat)
      requires pages <= Pow2(30)
      ensures order == OrderOf(pages)
      ensures Pow2(order) <= Pow2(30)
    {
      order := 0;
      var sz := 1;
      Pow2Mono(0, 30);
      while sz < pages
        invariant sz == Pow2(order) <= Pow2(30) && OrderFrom(order, pages) == OrderOf(pages)
        decreases pages - sz
      {
        if order >= 30 { Pow2Mono(30, order); }
        Pow2Mono(order + 1, 30);
        sz := 2 * sz;
        order := order + 1;
      }
    }

    /** The page of the upper half of the block at b once it is split into blocks of order o. */
    method UpperHalf(b: nat, o: nat) returns (buddy: int)
      ensures buddy == b + Pow2(o)
    {
      HalfAddress(b, o, PG_LOG2);
      var half := Shl(Shl(1, o), PG_LOG2);
      buddy := Shr(Shl(b, PG_LOG2) + half, PG_LOG2);
    }

    /** One round of the split loop: the upper half of b goes on its list. */
    method Split(b: int, o: nat)
      requires Valid() && b in s.blocks && s.blocks[b] == Block(o, false) && 0 < o
      modifies fl, next, ord, `s
      ensures Valid() && s == SplitOnce(old(s), b)
      ensures Kept(old(next[..]), next[..], Live(old(s.blocks)) - {b})
      ensures Kept(old(ord[..]), ord[..], Live(old(s.blocks)) - {b})
    {
      SplitPlan(s, b);
      var buddy := UpperHalf(b, o - 1);
      PushBlock(o - 1, buddy, Live(s.blocks) - {b}, SplitOnce(s, b));
    }

    /** The search loop of `buddy_alloc`. */
    method FindOrder(order: nat) returns (o: nat)
      requires Valid() && order <= K
      ensures o == FirstOrder(s.lists, order) <= K + 1
    {
      o := order;
      while o <= K && fl[o] == NULL
        invariant order <= o <= K + 1 && FirstOrder(s.lists, order) == FirstOrder(s.lists, o)
      {
        ListHead(fl[..], next[..], ord[..], s.lists, o);
        o := o + 1;
      }
      if o <= K { ListHead(fl[..], next[..], ord[..], s.lists, o); }
    }

    /** The split loop of `buddy_alloc` on the popped block b of order o0, and the final write of
        its order. */
    method SplitDown(b: int, o0: nat, order: nat)
      requires Valid() && b in s.blocks && s.blocks[b] == Block(o0, false) && order <= o0 <= K
      modifies fl, next, ord, `s
      ensures Valid() && s == SplitTo(old(s), b, order)
      ensures 0 <= b < ord.Length && ord[b] == order
      ensures Kept(old(next[..]), next[..], Live(old(s.blocks)) - {b})
      ensures Kept(old(ord[..]), ord[..], Live(old(s.blocks)) - {b})
    {
      ghost var live, t := Live(s.blocks) - {b}, SplitTo(s, b, order);
      var o := o0;
      while o > order
        invariant order <= o <= K && Valid() && b in s.blocks && s.blocks[b] == Block(o, false)
        invariant SplitTo(s, b, order) == t && Live(s.blocks) - {b} == live
        invariant Kept(old(next[..]), next[..], live) && Kept(old(ord[..]), ord[..], live)
      {
        ghost var n1, r1 := next[..], ord[..];
        SplitPlan(s, b);
        Split(b, o);
        o := o - 1;
        KeptTrans(old(next[..]), n1, next[..], live, live);
        KeptTrans(old(ord[..]), r1, ord[..], live, live);
      }
      ghost var r2 := ord[..];
      Stamp(b, order);
      KeptTrans(old(ord[..]), r2, ord[..], live, live);
    }

    /** `b->order = order`. */
    method Stamp(b: int, order: nat)
      requires Valid() && b in s.blocks && !s.blocks[b].free
      modifies ord
      ensures Valid() && Kept(old(ord[..]), ord[..], Live(s.blocks) - {b})
      ensures 0 <= b < ord.Length && ord[b] == order
    {
      LiveWrite(s, b, b, fl[..], next[..], ord[..], next[b], order);
      ord[b] := order;
      assert ord[..] == old(ord[..])[b := order] && next[..] == next[..][b := next[b]];
    }

    method Pop(o: nat) returns (b: int)
      requires Valid() && o <= K && s.lists[o] != []
      modifies fl, `s
      ensures Valid() && s == Take(old(s), o) && b == old(s.lists)[o][0]
    {
      TakeInv(s, o);
      b := FlPop(o, s.lists);
      s := Take(s, o);
    }

    method BuddyAlloc(pages: int) returns (p: int)
      requires Valid() && pages <= Pow2(30)
      modifies fl, next, ord, `s
      ensures Valid()
      ensures (s, p) == Alloc(old(s), pages)
      ensures p != NULL ==> 0 <= p < ord.Length && ord[p] == OrderOf(pages)
      ensures Kept(old(next[..]), next[..], Live(old(s.blocks))) && Kept(old(ord[..]), ord[..], Live(old(s.blocks)))
    {
      var order := ComputeOrder(pages);
      KeptSame(next[..], Live(s.blocks));
      KeptSame(ord[..], Live(s.blocks));
      if order > K {
        return NULL;
      }
      var o := FindOrder(order);
      if o > K {
        return NULL;
      }
      ghost var n0, r0, live := next[..], ord[..], Live(s.blocks);
      AllocPlan(s, pages);
      var b := Pop(o);
      assert Live(s.blocks) - {b} == live && next[..] == n0 && ord[..] == r0;
      SplitDown(b, o, order);
      return b;
    }

    /** One round of the merge loop: look for p's buddy on the list of p's order. */
    method Merge(p: int, o: nat) returns (merged: bool, lo: int)
      requires Valid() && p in s.blocks && s.blocks[p] == Block(o, false) && o < K
      modifies fl, next, `s
      ensures Valid() && merged == CanMerge(old(s), p)
      ensures s == if merged then MergeOnce(old(s), p) else old(s)
      ensures lo == if merged then Lower(p, Buddy(p, o)) else p
      ensures Kept(old(next[..]), next[..], Live(old(s.blocks)))
    {
      MergePlan(s, p);
      BuddyAddress(p, o, PG_LOG2);
      var off := Shl(p, PG_LOG2);
      var bsz := Shl(Shl(1, o), PG_LOG2);
      var buddyo := BitXor(off, bsz);
      var buddy := Shr(buddyo, PG_LOG2);
      merged := FlRemove(o, buddy, s.lists);
      lo := p;
      FreeWrites(old(next[..]), next[..], s.blocks);
      if merged {
        if buddy < p {
          lo := buddy;
        }
        s := MergeOnce(s, p);
      }
    }

    /** The final `fl_push` of `buddy_free`. */
    method GiveBack(p: int, order: nat)
      requires Valid() && p in s.blocks && s.blocks[p] == Block(order, false) && !CanMerge(s, p)
      modifies fl, next, ord, `s
      ensures order <= K
      ensures Valid() && s == Give(old(s), p)
      ensures Kept(old(next[..]), next[..], Live(old(s.blocks)) - {p})
      ensures Kept(old(ord[..]), ord[..], Live(old(s.blocks)) - {p})
    {
      GivePlan(s, p);
      PushBlock(order, p, Live(s.blocks) - {p}, Give(s, p));
    }

    /** The merge loop of `buddy_free`. */
    method MergeUp(p0: int, order0: nat) returns (p: int, order: nat)
      requires Valid() && p0 in s.blocks && s.blocks[p0] == Block(order0, false) && order0 <= K < |s.lists|
      modifies fl, next, `s
      ensures Valid() && p in s.blocks && s.blocks[p] == Block(order, false) && order <= K < |s.lists|
      ensures !CanMerge(s, p) && Free(s, p) == Free(old(s), p0)
      ensures Live(s.blocks) - {p} == Live(old(s.blocks)) - {p0}
      ensures Kept(old(next[..]), next[..], Live(old(s.blocks)) - {p0})
    {
      ghost var live, t := Live(s.blocks) - {p0}, Free(s, p0);
      p, order := p0, order0;
      while order < K
        invariant Valid() && p in s.blocks && s.blocks[p] == Block(order, false) && order <= K
        invariant Free(s, p) == t && Live(s.blocks) - {p} == live
        invariant Kept(old(next[..]), next[..], live)
      {
        ghost var s1, n1 := s, next[..];
        MergeGoal(s, p);
        var merged, lo := Merge(p, order);
        KeptTrans(old(next[..]), n1, next[..], live, Live(s1.blocks));
        if !merged {
          break;
        }
        p := lo;
        order := order + 1;
      }
    }

    method BuddyFree(p0: int, pages: int)
      requires Valid() && pages <= Pow2(30) && Releasable(s, p0, pages)
      modifies fl, next, ord, `s
      ensures Valid()
      ensures old(s.blocks)[p0].order <= old(s).K < |old(s).lists| && s == Free(old(s), p0)
      ensures Kept(old(next[..]), next[..], Live(old(s.blocks)) - {p0})
      ensures Kept(old(ord[..]), ord[..], Live(old(s.blocks)) - {p0})
    {
      ghost var live := Live(s.blocks) - {p0};
      FreeInv(s, p0);
      var order := ComputeOrder(pages);
      var p;
      p, order := MergeUp(p0, order);
      ghost var n2 := next[..];
      GivePlan(s, p);
      GiveBack(p, order);
      KeptTrans(old(next[..]), n2, next[..], live, live);
    }

    /** One call by the program. */
    method Call(op: Op) returns (b: int)
      requires Valid() && Legal(s, op) && op.pages <= Pow2(30)
      modifies fl, next, ord, `s
      ensures Valid() && s == Step(old(s), op) && b == Answer(old(s), op)
      ensures Kept(old(next[..]), next[..], Untouched(Live(old(s.blocks)), [op]))
      ensures Kept(old(ord[..]), ord[..], Untouched(Live(old(s.blocks)), [op]))
    {
      ghost var n0, r0, all, live := next[..], ord[..], Live(s.blocks), Untouched(Live(s.blocks), [op]);
      UntouchedOne(all, op);
      match op {
        case Grab(pages) =>
          b := BuddyAlloc(pages);
          KeptSome(n0, next[..], live, all);
          KeptSome(r0, ord[..], live, all);
        case Release(p, pages) =>
          BuddyFree(p, pages);
          b := NULL;
          KeptSome(n0, next[..], live, all - {p});
          KeptSome(r0, ord[..], live, all - {p});
      }
    }

    /** Any run of calls and what they return: no word of a block that it does not free changes,
        from first call to last. */
    method Run(ops: seq<Op>) returns (bs: seq<int>)
      requires Valid() && LegalRun(s, ops) && forall i :: 0 <= i < |ops| ==> ops[i].pages <= Pow2(30)
      modifies fl, next, ord, `s
      ensures Valid() && s == RunOps(old(s), ops) && bs == Answers(old(s), ops)
      ensures Kept(old(next[..]), next[..], Untouched(Live(old(s.blocks)), ops))
      ensures Kept(old(ord[..]), ord[..], Untouched(Live(old(s.blocks)), ops))
      decreases |ops|
    {
      if ops == [] {
        return [];
      }
      ghost var n0, r0, live := next[..], ord[..], Untouched(Live(s.blocks), ops);
      ghost var one := Untouched(Live(s.blocks), [ops[0]]);
      UntouchedStep(s, ops);
      StepInv(s, ops[0]);
      var b := Call(ops[0]);
      ghost var n1, r1, rest := next[..], ord[..], Untouched(Live(s.blocks), ops[1..]);
      KeptSome(n0, n1, live, one);
      KeptSome(r0, r1, live, one);
      bs := Run(ops[1..]);
      bs := [b] + bs;
      KeptTrans(n0, n1, next[..], live, rest);
      KeptTrans(r0, r1, ord[..], live, rest);
    }

    /** The program writing word j of a page of a live block: the allocator's own data never
        depends on it. */
    method Store(b: int, x: int, j: nat, v: int)
      requires Valid() && b in s.blocks && !s.blocks[b].free && b <= x < End(s.blocks, b) && j < PG_WORDS
      modifies next, ord, rest
      ensures Valid()
      ensures next[..] == if j == 0 then old(next[..])[x := v] else old(next[..])
      ensures ord[..] == if j == 1 then old(ord[..])[x := v] else old(ord[..])
      ensures forall y, k :: 0 <= y < Pow2(K) && 0 <= k < PG_WORDS - 2 ==>
                rest[y, k] == if y == x && k == j - 2 then v else old(rest[y, k])
      ensures Kept(old(next[..]), next[..], Live(s.blocks) - {b})
      ensures Kept(old(ord[..]), ord[..], Live(s.blocks) - {b})
    {
      LiveWrite(s, b, x, fl[..], next[..], ord[..], if j == 0 then v else next[x], if j == 1 then v else ord[x]);
      if j == 0 {
        next[x] := v;
        assert ord[..] == ord[..][x := ord[x]] && next[..] == old(next[..])[x := v];
      } else if j == 1 {
        ord[x] := v;
        assert next[..] == next[..][x := next[x]] && ord[..] == old(ord[..])[x := v];
      } else {
        rest[x, j - 2] := v;
        assert next[..] == next[..][x := next[x]] && ord[..] == ord[..][x := ord[x]];
      }
    }
  }
}
