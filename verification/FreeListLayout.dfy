/** The free-list heap as its chunks and its free list, without the memory that holds them:
    what `my_malloc` and `my_free` do to the chunks, and why the chunks are determined by the
    live ones alone. Addresses are byte offsets from `heap_base`. */
module FreeListLayout {
  import opened Arithmetic
  import opened Lists

  /** ALIGN_UP of a header of three words. */
  const HDR_SZ := 32
  /** ALIGN_UP of a footer of one word. */
  const FTR_SZ := 16
  const MIN_CHUNK := 64

  datatype Chunk = Chunk(size: nat, free: bool)

  /** Chunks by address. */
  type Layout = map<int, Chunk>

  /** Everything the allocator knows: the capacity, the chunks, the free list head first. */
  datatype Heap = Heap(cap: nat, chunks: Layout, fl: seq<int>)

  function Need(req: nat): nat {
    var need := AlignUp(req + HDR_SZ + FTR_SZ);
    if need < MIN_CHUNK then MIN_CHUNK else need
  }

  function End(L: Layout, a: int): int
    requires a in L
  {
    a + L[a].size
  }

  /** What follows a is another chunk or the end of the heap. */
  ghost predicate Followed(cap: nat, L: Layout, a: int)
    requires a in L
  {
    End(L, a) == cap || End(L, a) in L
  }

  ghost predicate Sized(cap: nat, L: Layout) {
    forall a :: a in L ==>
      0 <= a && a % 16 == 0 && L[a].size % 16 == 0 && MIN_CHUNK <= L[a].size && End(L, a) <= cap
  }

  ghost predicate Ordered(L: Layout) {
    forall a, b :: a in L && b in L && a < b ==> End(L, a) <= b
  }

  ghost predicate Chained(cap: nat, L: Layout) {
    forall a {:trigger Followed(cap, L, a)} :: a in L ==> Followed(cap, L, a)
  }

  /** The chunks lie end to end from 0 to `cap`, aligned and never below the minimum size. */
  ghost predicate Tiled(cap: nat, L: Layout) {
    0 in L && Sized(cap, L) && Ordered(L) && Chained(cap, L)
  }

  /** No two neighbours are both free. */
  ghost predicate Coalesced(L: Layout) {
    forall a, b :: a in L && b in L && L[a].free && L[b].free ==> End(L, a) != b
  }

  /** The list holds each free chunk once and nothing else. */
  ghost predicate Exact(L: Layout, fl: seq<int>) {
    && NoDup(fl)
    && forall a :: a in fl <==> a in L && L[a].free
  }

  ghost predicate Inv(s: Heap) {
    Tiled(s.cap, s.chunks) && Coalesced(s.chunks) && Exact(s.chunks, s.fl)
  }

  /** The chunks handed out and not yet freed, with their sizes. */
  ghost function Live(L: Layout): map<int, nat> {
    map a | a in L && !L[a].free :: L[a].size
  }

  // ---------- The operations ----------

  ghost function Init(cap: nat): Heap {
    Heap(cap, map[0 := Chunk(cap, true)], [0])
  }

  /** The position of the first chunk on the list that is large enough. */
  function FirstFit(L: Layout, fl: seq<int>, need: nat): (i: nat)
    requires forall j :: 0 <= j < |fl| ==> fl[j] in L
    ensures i <= |fl|
    ensures forall j :: 0 <= j < i ==> L[fl[j]].size < need
    ensures i < |fl| ==> need <= L[fl[i]].size
  {
    if fl == [] || need <= L[fl[0]].size then 0 else 1 + FirstFit(L, fl[1..], need)
  }

  function Split(L: Layout, h: int, need: nat): Layout
    requires h in L && need <= L[h].size
  {
    L[h := Chunk(need, false)][h + need := Chunk(L[h].size - need, true)]
  }

  /** Hand out `need` bytes of the free chunk h, splitting off what is left if that is a chunk. */
  ghost function Take(s: Heap, h: int, need: nat): Heap
    requires h in s.chunks && need <= s.chunks[h].size
  {
    var size := s.chunks[h].size;
    var rest := Remove(s.fl, h);
    if size - need >= MIN_CHUNK then
      s.(chunks := Split(s.chunks, h, need), fl := [h + need] + rest)
    else
      s.(chunks := s.chunks[h := Chunk(size, false)], fl := rest)
  }

  /** `my_malloc`: the new heap, and the payload pointer or NULL. */
  ghost function Malloc(s: Heap, req: nat): (Heap, int)
    requires Exact(s.chunks, s.fl)
  {
    if req == 0 then (s, NULL) else
      assert forall j {:trigger s.fl[j]} :: 0 <= j < |s.fl| ==> s.fl[j] in s.fl;
      var i := FirstFit(s.chunks, s.fl, Need(req));
      if i == |s.fl| then (s, NULL) else (Take(s, s.fl[i], Need(req)), s.fl[i] + HDR_SZ)
  }

  ghost function Absorb(L: Layout, a: int, b: int): Layout
    requires a in L && b in L
  {
    (L - {b})[a := Chunk(L[a].size + L[b].size, true)]
  }

  ghost predicate HasNext(L: Layout, h: int) {
    h in L && End(L, h) in L && L[End(L, h)].free
  }

  /** pr is the free chunk that ends where h starts. */
  ghost predicate IsPrev(L: Layout, pr: int, h: int) {
    pr in L && End(L, pr) == h && L[pr].free
  }

  ghost function MergeNext(s: Heap, h: int): Heap
    requires h in s.chunks
  {
    if HasNext(s.chunks, h) then
      var n := End(s.chunks, h);
      s.(chunks := Absorb(s.chunks, h, n), fl := Remove(s.fl, n))
    else s
  }

  ghost function MergePrev(s: Heap, h: int): Heap
    requires h in s.chunks
  {
    if pr :| IsPrev(s.chunks, pr, h) then
      s.(chunks := Absorb(s.chunks, pr, h), fl := [pr] + Remove(s.fl, pr))
    else s.(fl := [h] + s.fl)
  }

  ghost function Mark(s: Heap, h: int): Heap
    requires h in s.chunks
  {
    s.(chunks := s.chunks[h := s.chunks[h].(free := true)])
  }

  /** p points at the payload of a live chunk. */
  ghost predicate IsLive(s: Heap, p: int) {
    p - HDR_SZ in s.chunks && !s.chunks[p - HDR_SZ].free
  }

  /** `my_free` of a live pointer. */
  ghost function Free(s: Heap, p: int): Heap
    requires IsLive(s, p)
  {
    var h := p - HDR_SZ;
    MergePrev(MergeNext(Mark(s, h), h), h)
  }

  /** A call by the program: `my_malloc(req)` or `my_free(p)`. */
  datatype Op = Alloc(req: nat) | Release(p: int)

  /** `my_free` takes NULL or a live pointer. */
  ghost predicate Legal(s: Heap, op: Op) {
    op.Release? ==> op.p == NULL || IsLive(s, op.p)
  }

  ghost function Step(s: Heap, op: Op): Heap
    requires Inv(s) && Legal(s, op)
  {
    match op
    case Alloc(req) => Malloc(s, req).0
    case Release(p) => if p == NULL then s else Free(s, p)
  }

  // ---------- Tiling ----------

  /** Every address below the capacity lies in a chunk. */
  lemma {:induction false} Cover(cap: nat, L: Layout, a: int, x: int) returns (c: int)
    requires Tiled(cap, L) && a in L && a <= x < cap
    ensures c in L && c <= x < End(L, c)
    decreases x - a
  {
    if x < End(L, a) {
      c := a;
    } else {
      assert Followed(cap, L, a);
      c := Cover(cap, L, End(L, a), x);
    }
  }

  /** Every chunk but the first has a chunk that ends where it starts. */
  lemma Predecessor(cap: nat, L: Layout, h: int) returns (pr: int)
    requires Tiled(cap, L) && h in L && h != 0
    ensures pr in L && End(L, pr) == h && L[pr].size % 16 == 0
  {
    pr := Cover(cap, L, 0, h - 1);
  }

  lemma Sixteens(x: int, y: int)
    requires x % 16 == 0 && y % 16 == 0
    ensures (x + y) % 16 == 0 && (x - y) % 16 == 0
  {
  }

  lemma SplitTiled(cap: nat, L: Layout, h: int, need: nat)
    requires Tiled(cap, L) && h in L && need % 16 == 0 && MIN_CHUNK <= need && need + MIN_CHUNK <= L[h].size
    ensures h + need !in L
    ensures Tiled(cap, Split(L, h, need))
  {
    var L' := Split(L, h, need);
    Sixteens(h, need);
    Sixteens(L[h].size, need);
    assert Sized(cap, L');
    assert Ordered(L');
    forall a | a in L'
      ensures Followed(cap, L', a)
    {
      if a in L { assert Followed(cap, L, a); }
      assert Followed(cap, L, h);
    }
  }

  lemma RetagTiled(cap: nat, L: Layout, h: int, free: bool)
    requires Tiled(cap, L) && h in L
    ensures Tiled(cap, L[h := Chunk(L[h].size, free)])
  {
    var L' := L[h := Chunk(L[h].size, free)];
    assert Sized(cap, L');
    assert Ordered(L');
    forall a | a in L'
      ensures Followed(cap, L', a)
    {
      assert Followed(cap, L, a);
    }
  }

  lemma AbsorbTiled(cap: nat, L: Layout, a: int)
    requires Tiled(cap, L) && a in L && End(L, a) in L
    ensures Tiled(cap, Absorb(L, a, End(L, a)))
  {
    var n := End(L, a);
    var L' := Absorb(L, a, n);
    assert Sized(cap, L');
    assert Ordered(L');
    forall b | b in L'
      ensures Followed(cap, L', b)
    {
      assert Followed(cap, L, b) && Followed(cap, L, n);
    }
  }

  // ---------- Every operation keeps the invariant ----------

  /** The branch `if (need < MIN_CHUNK)` of `my_malloc` is never taken. */
  lemma NeedNoClamp(req: nat)
    requires req > 0
    ensures Need(req) == AlignUp(req + HDR_SZ + FTR_SZ)
  {
    AlignUpBounds(req + HDR_SZ + FTR_SZ);
  }

  lemma InitInv(cap: nat)
    requires cap % 16 == 0 && MIN_CHUNK <= cap
    ensures Inv(Init(cap)) && Live(Init(cap).chunks) == map[]
  {
  }

  /** Handing out a whole chunk. */
  lemma WholeInv(s: Heap, h: int)
    requires Inv(s) && h in s.fl
    ensures var L' := s.chunks[h := Chunk(s.chunks[h].size, false)];
      Inv(Heap(s.cap, L', Remove(s.fl, h))) && Live(L') == Live(s.chunks)[h := s.chunks[h].size]
  {
    RemoveKeeps(s.fl, h);
    RetagTiled(s.cap, s.chunks, h, false);
    var L' := s.chunks[h := Chunk(s.chunks[h].size, false)];
    assert Coalesced(L');
    assert Exact(L', Remove(s.fl, h));
  }

  /** The part split off has a live chunk before it, and what follows it is not free. */
  lemma SplitCoalesced(cap: nat, L: Layout, h: int, need: nat)
    requires Tiled(cap, L) && Coalesced(L) && h in L && L[h].free
    requires MIN_CHUNK <= need && need + MIN_CHUNK <= L[h].size && h + need !in L
    ensures Coalesced(Split(L, h, need))
  {
    var L' := Split(L, h, need);
    forall a, b | a in L' && b in L' && L'[a].free && L'[b].free
      ensures End(L', a) != b
    {
      if a == h + need { assert End(L', a) == End(L, h); }
    }
  }

  /** Handing out the front of a chunk. */
  lemma SplitInv(s: Heap, h: int, need: nat)
    requires Inv(s) && h in s.fl && need % 16 == 0 && MIN_CHUNK <= need && need + MIN_CHUNK <= s.chunks[h].size
    ensures var L' := Split(s.chunks, h, need);
      Inv(Heap(s.cap, L', [h + need] + Remove(s.fl, h))) && Live(L') == Live(s.chunks)[h := need]
  {
    RemoveKeeps(s.fl, h);
    SplitTiled(s.cap, s.chunks, h, need);
    SplitCoalesced(s.cap, s.chunks, h, need);
    NoDupCons(h + need, Remove(s.fl, h));
    assert Exact(Split(s.chunks, h, need), [h + need] + Remove(s.fl, h));
  }

  lemma TakeInv(s: Heap, h: int, need: nat)
    requires Inv(s) && h in s.fl && need % 16 == 0 && MIN_CHUNK <= need <= s.chunks[h].size
    ensures Inv(Take(s, h, need))
    ensures Live(Take(s, h, need).chunks) == Live(s.chunks)[h := Take(s, h, need).chunks[h].size]
  {
    if s.chunks[h].size - need >= MIN_CHUNK {
      SplitInv(s, h, need);
    } else {
      WholeInv(s, h);
    }
  }

  ghost predicate CoalescedBut(L: Layout, h: int) {
    forall a, b :: a in L && b in L && L[a].free && L[b].free && a != h && b != h ==> End(L, a) != b
  }

  /** The heap between `set_size(h, csz(h), 1)` and `fl_insert(h)`: h is free but not yet listed. */
  ghost predicate Pending(s: Heap, h: int) {
    && Tiled(s.cap, s.chunks)
    && h in s.chunks && s.chunks[h].free
    && NoDup(s.fl)
    && (forall a :: a in s.fl <==> a in s.chunks && s.chunks[a].free && a != h)
    && CoalescedBut(s.chunks, h)
  }

  lemma MarkPending(s: Heap, h: int)
    requires Inv(s) && h in s.chunks && !s.chunks[h].free
    ensures Pending(Mark(s, h), h)
    ensures Live(Mark(s, h).chunks) == Live(s.chunks) - {h}
  {
    RetagTiled(s.cap, s.chunks, h, true);
  }

  lemma MergeNextPending(s: Heap, h: int)
    requires Pending(s, h)
    ensures Pending(MergeNext(s, h), h) && !HasNext(MergeNext(s, h).chunks, h)
    ensures Live(MergeNext(s, h).chunks) == Live(s.chunks)
  {
    if HasNext(s.chunks, h) {
      var n := End(s.chunks, h);
      RemoveKeeps(s.fl, n);
      AbsorbTiled(s.cap, s.chunks, h);
    }
  }

  lemma AbsorbPrev(s: Heap, q: int, h: int)
    requires Pending(s, h) && !HasNext(s.chunks, h) && IsPrev(s.chunks, q, h)
    ensures Inv(Heap(s.cap, Absorb(s.chunks, q, h), [q] + Remove(s.fl, q)))
    ensures Live(Absorb(s.chunks, q, h)) == Live(s.chunks)
  {
    RemoveKeeps(s.fl, q);
    AbsorbTiled(s.cap, s.chunks, q);
    var L' := Absorb(s.chunks, q, h);
    assert Coalesced(L') by {
      assert End(L', q) == End(s.chunks, h);
    }
    assert Exact(L', [q] + Remove(s.fl, q));
  }

  lemma NoPrev(s: Heap, h: int)
    requires Pending(s, h) && !HasNext(s.chunks, h) && forall q :: !IsPrev(s.chunks, q, h)
    ensures Inv(s.(fl := [h] + s.fl))
  {
    forall a, b | a in s.chunks && b in s.chunks && s.chunks[a].free && s.chunks[b].free
      ensures End(s.chunks, a) != b
    {
      assert !IsPrev(s.chunks, a, h);
    }
    assert Exact(s.chunks, [h] + s.fl);
  }

  lemma MergePrevInv(s: Heap, h: int)
    requires Pending(s, h) && !HasNext(s.chunks, h)
    ensures Inv(MergePrev(s, h))
    ensures Live(MergePrev(s, h).chunks) == Live(s.chunks)
  {
    if exists q :: IsPrev(s.chunks, q, h) {
      forall q | IsPrev(s.chunks, q, h)
        ensures Inv(s.(chunks := Absorb(s.chunks, q, h), fl := [q] + Remove(s.fl, q)))
        ensures Live(Absorb(s.chunks, q, h)) == Live(s.chunks)
      {
        AbsorbPrev(s, q, h);
      }
    } else {
      NoPrev(s, h);
    }
  }

  lemma FreeInv(s: Heap, p: int)
    requires Inv(s) && IsLive(s, p)
    ensures Inv(Free(s, p))
    ensures Live(Free(s, p).chunks) == Live(s.chunks) - {p - HDR_SZ}
  {
    var h := p - HDR_SZ;
    MarkPending(s, h);
    MergeNextPending(Mark(s, h), h);
    MergePrevInv(MergeNext(Mark(s, h), h), h);
  }

  lemma MallocInv(s: Heap, req: nat)
    requires Inv(s)
    ensures Inv(Malloc(s, req).0)
  {
    AlignUpBounds(req + HDR_SZ + FTR_SZ);
    if Malloc(s, req).1 != NULL {
      TakeInv(s, Malloc(s, req).1 - HDR_SZ, Need(req));
    }
  }

  lemma StepInv(s: Heap, op: Op)
    requires Inv(s) && Legal(s, op)
    ensures Inv(Step(s, op)) && Step(s, op).cap == s.cap
  {
    match op
    case Alloc(req) => MallocInv(s, req);
    case Release(p) => if p != NULL { FreeInv(s, p); }
  }

  // ---------- The free chunks are the gaps between the live ones ----------

  /** No byte of [x, y) belongs to a live chunk. */
  ghost predicate Gap(L: Layout, x: int, y: int) {
    forall a :: a in L && !L[a].free ==> End(L, a) <= x || y <= a
  }

  /** The heap has `n` bytes at x that no live chunk touches. */
  ghost predicate Fits(s: Heap, x: int, n: nat) {
    0 <= x && x + n <= s.cap && Gap(s.chunks, x, x + n)
  }

  /** A stretch that no live chunk touches lies inside one free chunk. */
  lemma GapInOneChunk(s: Heap, x: int, y: int) returns (a: int)
    requires Inv(s) && 0 <= x < y <= s.cap && Gap(s.chunks, x, y)
    ensures a in s.chunks && s.chunks[a].free && a <= x && y <= End(s.chunks, a)
  {
    a := Cover(s.cap, s.chunks, 0, x);
    assert Followed(s.cap, s.chunks, a);
  }

  /** A free chunk is a gap, and it cannot be widened on either side. */
  lemma FreeChunkIsMaximal(s: Heap, a: int, x: int, y: int)
    requires Inv(s) && a in s.chunks && s.chunks[a].free
    requires 0 <= x <= a && End(s.chunks, a) <= y <= s.cap
    ensures Gap(s.chunks, x, y) <==> x == a && y == End(s.chunks, a)
  {
    if Gap(s.chunks, x, y) {
      var b := GapInOneChunk(s, x, y);
    }
  }

  /** `my_malloc` of a nonzero request fails only when no stretch of the heap of the size it needs
      is free of live chunks: coalescing never hides room, and first fit never misses it. A
      failure changes nothing. */
  lemma MallocComplete(s: Heap, req: nat)
    requires Inv(s)
    ensures Malloc(s, req).1 == NULL <==> req == 0 || forall x :: !Fits(s, x, Need(req))
    ensures Malloc(s, req).1 == NULL ==> Malloc(s, req).0 == s
  {
    if req == 0 {
      return;
    }
    var need := Need(req);
    assert Exact(s.chunks, s.fl);
    assert forall j {:trigger s.fl[j]} :: 0 <= j < |s.fl| ==> s.fl[j] in s.fl;
    var i := FirstFit(s.chunks, s.fl, need);
    if i < |s.fl| {
      assert s.fl[i] in s.fl;
      assert Fits(s, s.fl[i], need);
    } else {
      forall x
        ensures !Fits(s, x, need)
      {
        if Fits(s, x, need) {
          var a := GapInOneChunk(s, x, x + need);
        }
      }
    }
  }

  lemma TakeGrants(s: Heap, h: int, need: nat)
    requires Inv(s) && h in s.fl && MIN_CHUNK <= need <= s.chunks[h].size
    ensures var t := Take(s, h, need);
      && h in t.chunks && !t.chunks[h].free && need <= t.chunks[h].size < need + MIN_CHUNK
      && End(t.chunks, h) <= End(s.chunks, h) && h !in Live(s.chunks)
    ensures var t := Take(s, h, need);
      forall b :: b in s.chunks && !s.chunks[b].free ==>
        b in t.chunks && t.chunks[b] == s.chunks[b] && (End(s.chunks, b) <= h || End(t.chunks, h) <= b)
  {
  }

  /** What a successful `my_malloc` hands out: a new live chunk, 16-aligned, whose payload holds
      `req` bytes before its footer, at most MIN_CHUNK - 1 bytes more than needed, taken from the
      first adequate chunk on the list; no other live chunk changes, and none overlaps it. */
  lemma MallocGrants(s: Heap, req: nat)
    requires Inv(s) && Malloc(s, req).1 != NULL
    ensures var (t, p) := Malloc(s, req);
      var h := p - HDR_SZ;
      && Inv(t) && p % 16 == 0
      && h in t.chunks && !t.chunks[h].free
      && p + req <= End(t.chunks, h) - FTR_SZ
      && Need(req) <= t.chunks[h].size < Need(req) + MIN_CHUNK
      && Live(t.chunks) == Live(s.chunks)[h := t.chunks[h].size] && h !in Live(s.chunks)
      && (forall b :: b in s.chunks && !s.chunks[b].free ==>
            b in t.chunks && t.chunks[b] == s.chunks[b] && (End(s.chunks, b) <= h || End(t.chunks, h) <= b))
      && (exists i :: 0 <= i < |s.fl| && s.fl[i] == h
            && forall j :: 0 <= j < i ==> s.fl[j] in s.chunks && s.chunks[s.fl[j]].size < Need(req))
  {
    AlignUpBounds(req + HDR_SZ + FTR_SZ);
    assert forall j {:trigger s.fl[j]} :: 0 <= j < |s.fl| ==> s.fl[j] in s.fl;
    var h := Malloc(s, req).1 - HDR_SZ;
    var i := FirstFit(s.chunks, s.fl, Need(req));
    assert s.fl[i] == h;
    Sixteens(h, HDR_SZ);
    TakeInv(s, h, Need(req));
    TakeGrants(s, h, Need(req));
    var t := Take(s, h, Need(req));
    assert Malloc(s, req) == (t, h + HDR_SZ);
  }

  // ---------- The whole outcome of a call ----------

  /** Taking a chunk off the list takes out the one entry that lies in it. */
  lemma RemoveChunk(cap: nat, L: Layout, fl: seq<int>, h: int)
    requires Tiled(cap, L) && NoDup(fl) && h in fl && forall x :: x in fl ==> x in L
    ensures Remove(fl, h) == Outside(fl, h, End(L, h))
  {
    RemoveKeeps(fl, h);
    RemoveOutside(fl, h, h, End(L, h));
    OutsideAll(Remove(fl, h), h, End(L, h));
  }

  /** Every chunk but h is as it was. */
  ghost predicate OthersSame(L: Layout, L': Layout, h: int) {
    forall b :: b in L && b != h ==> b in L' && L'[b] == L[b]
  }

  lemma TakeExact(s: Heap, h: int, need: nat)
    requires Inv(s) && h in s.fl && need % 16 == 0 && MIN_CHUNK <= need <= s.chunks[h].size
    ensures var t, size := Take(s, h, need), s.chunks[h].size;
      && OthersSame(s.chunks, t.chunks, h)
      && if size - need >= MIN_CHUNK then
           && h in t.chunks && t.chunks[h] == Chunk(need, false)
           && h + need in t.chunks && t.chunks[h + need] == Chunk(size - need, true)
           && t.fl == [h + need] + Outside(s.fl, h, h + size)
         else
           h in t.chunks && t.chunks[h] == Chunk(size, false) && t.fl == Outside(s.fl, h, h + size)
  {
    RemoveChunk(s.cap, s.chunks, s.fl, h);
    if s.chunks[h].size - need >= MIN_CHUNK { SplitTiled(s.cap, s.chunks, h, need); }
  }

  /** The chunk handed out is cut to exactly the size needed when what is left makes a chunk, and
      that one heads the list; otherwise it is handed out whole. The entry it had is gone, the
      other entries keep their order, and every other chunk is as it was. */
  lemma MallocExact(s: Heap, req: nat)
    requires Inv(s) && Malloc(s, req).1 != NULL
    ensures var (t, p) := Malloc(s, req);
      var h, need := p - HDR_SZ, Need(req);
      && h in s.chunks && s.chunks[h].free && h in t.chunks
      && var size := s.chunks[h].size;
        if size - need >= MIN_CHUNK then
          && t.chunks[h] == Chunk(need, false)
          && h + need in t.chunks && t.chunks[h + need] == Chunk(size - need, true)
          && t.fl == [h + need] + Outside(s.fl, h, h + size)
        else
          t.chunks[h] == Chunk(size, false) && t.fl == Outside(s.fl, h, h + size)
    ensures var (t, p) := Malloc(s, req); OthersSame(s.chunks, t.chunks, p - HDR_SZ)
  {
    AlignUpBounds(req + HDR_SZ + FTR_SZ);
    assert forall j {:trigger s.fl[j]} :: 0 <= j < |s.fl| ==> s.fl[j] in s.fl;
    var need := Need(req);
    var h := s.fl[FirstFit(s.chunks, s.fl, need)];
    assert h in s.fl;
    TakeExact(s, h, need);
    assert Malloc(s, req) == (Take(s, h, need), h + HDR_SZ);
  }

  /** The list after the first coalescing step. */
  lemma MergeNextList(s: Heap, h: int, lo: int, hi: int)
    requires Pending(s, h)
    requires var n := MergeNext(s, h); lo <= h && End(n.chunks, h) <= hi
    ensures Outside(MergeNext(s, h).fl, lo, hi) == Outside(s.fl, lo, hi)
  {
    if HasNext(s.chunks, h) { RemoveOutside(s.fl, End(s.chunks, h), lo, hi); }
  }

  /** The list after the second: the merged chunk and the entries outside it. */
  lemma MergePrevList(s: Heap, h: int)
    requires Pending(s, h) && Inv(MergePrev(s, h))
    ensures var t := MergePrev(s, h);
      && t.fl != [] && t.fl[0] in t.chunks && t.fl[0] <= h && End(s.chunks, h) <= End(t.chunks, t.fl[0])
      && t.fl[1..] == Outside(s.fl, t.fl[0], End(t.chunks, t.fl[0]))
  {
    var t := MergePrev(s, h);
    var a := t.fl[0];
    assert a in t.fl && t.fl == [a] + t.fl[1..];
    if pr :| IsPrev(s.chunks, pr, h) {
      assert forall q :: IsPrev(s.chunks, q, h) ==> q == pr;
      assert t.fl[1..] == Remove(s.fl, pr);
      RemoveOutside(s.fl, pr, a, End(t.chunks, a));
    }
    OthersOutside(t, a);
  }

  lemma OthersOutside(t: Heap, a: int)
    requires Inv(t) && t.fl != [] && a == t.fl[0] && a in t.chunks
    ensures Outside(t.fl[1..], a, End(t.chunks, a)) == t.fl[1..]
  {
    forall x | x in t.fl[1..]
      ensures !(a <= x < End(t.chunks, a))
    {
      assert x in t.fl && x != a;
    }
    OutsideAll(t.fl[1..], a, End(t.chunks, a));
  }

  /** The chunk freed, merged with its free neighbours, heads the list; the entries of the
      neighbours are gone and the others keep their order. With FreeInv and Canonical this fixes
      the whole heap. */
  lemma FreeExact(s: Heap, p: int)
    requires Inv(s) && IsLive(s, p)
    ensures var t, h := Free(s, p), p - HDR_SZ;
      && t.fl != [] && t.fl[0] in t.chunks
      && t.fl[0] <= h && End(s.chunks, h) <= End(t.chunks, t.fl[0])
      && t.fl[1..] == Outside(s.fl, t.fl[0], End(t.chunks, t.fl[0]))
  {
    var h := p - HDR_SZ;
    FreeInv(s, p);
    MarkPending(s, h);
    MergeNextPending(Mark(s, h), h);
    var n, t := MergeNext(Mark(s, h), h), Free(s, p);
    assert End(s.chunks, h) <= End(n.chunks, h);
    MergePrevList(n, h);
    MergeNextList(Mark(s, h), h, t.fl[0], End(t.chunks, t.fl[0]));
  }

  // ---------- The live chunks determine the layout ----------

  lemma {:induction false} SameChunk(cap: nat, L: Layout, M: Layout, a: int)
    requires Tiled(cap, L) && Coalesced(L) && Tiled(cap, M) && Coalesced(M) && Live(L) == Live(M)
    requires a in L
    ensures a in M && M[a] == L[a]
    decreases a
  {
    if a != 0 {
      var pr := Predecessor(cap, L, a);
      SameChunk(cap, L, M, pr);
      assert Followed(cap, M, pr);
    }
    assert Followed(cap, L, a) && Followed(cap, M, a);
    assert a in Live(L) <==> a in Live(M);
    var e, f := End(L, a), End(M, a);
    assert e in Live(L) <==> e in Live(M);
    assert f in Live(L) <==> f in Live(M);
  }

  /** Two coalesced layouts of the same heap with the same live chunks are the same. */
  lemma Canonical(cap: nat, L: Layout, M: Layout)
    requires Tiled(cap, L) && Coalesced(L) && Tiled(cap, M) && Coalesced(M) && Live(L) == Live(M)
    ensures L == M
  {
    forall a | a in L ensures a in M && M[a] == L[a] { SameChunk(cap, L, M, a); }
    forall a | a in M ensures a in L && L[a] == M[a] { SameChunk(cap, M, L, a); }
  }

  lemma FreeUndoes(s: Heap, t: Heap, p: int)
    requires Inv(s) && Inv(t) && t.cap == s.cap && IsLive(t, p)
    requires Live(t.chunks) - {p - HDR_SZ} == Live(s.chunks)
    ensures Free(t, p).chunks == s.chunks
  {
    FreeInv(t, p);
    Canonical(s.cap, Free(t, p).chunks, s.chunks);
  }

  /** Freeing what was just allocated restores every chunk, splits and merges included. */
  lemma MallocFree(s: Heap, req: nat)
    requires Inv(s) && Malloc(s, req).1 != NULL
    ensures var (t, p) := Malloc(s, req); IsLive(t, p) && Free(t, p).chunks == s.chunks
  {
    var (t, p) := Malloc(s, req);
    MallocInv(s, req);
    assert IsLive(t, p) && Live(t.chunks) - {p - HDR_SZ} == Live(s.chunks) by {
      MallocGrants(s, req);
    }
    FreeUndoes(s, t, p);
  }

  // ---------- Whole runs ----------

  ghost predicate LegalRun(s: Heap, ops: seq<Op>)
    requires Inv(s)
    decreases |ops|
  {
    ops != [] ==> Legal(s, ops[0]) && (StepInv(s, ops[0]); LegalRun(Step(s, ops[0]), ops[1..]))
  }

  ghost function RunOps(s: Heap, ops: seq<Op>): (t: Heap)
    requires Inv(s) && LegalRun(s, ops)
    ensures Inv(t) && t.cap == s.cap
    decreases |ops|
  {
    if ops == [] then s else StepInv(s, ops[0]); RunOps(Step(s, ops[0]), ops[1..])
  }

  /** What a call returns; `my_free` returns nothing. */
  ghost function Answer(s: Heap, op: Op): int
    requires Inv(s)
  {
    if op.Alloc? then Malloc(s, op.req).1 else NULL
  }

  /** What the calls of a run return, in order. */
  ghost function Answers(s: Heap, ops: seq<Op>): (ps: seq<int>)
    requires Inv(s) && LegalRun(s, ops)
    ensures |ps| == |ops|
    decreases |ops|
  {
    if ops == [] then [] else StepInv(s, ops[0]); [Answer(s, ops[0])] + Answers(Step(s, ops[0]), ops[1..])
  }

  /** The pointers a program holds after calls that answered `ps`. */
  function Held(held: set<int>, ops: seq<Op>, ps: seq<int>): set<int>
    requires |ops| == |ps|
    decreases |ops|
  {
    if ops == [] then held else Held(HeldAfter(held, ops[0], ps[0]), ops[1..], ps[1..])
  }

  function HeldAfter(held: set<int>, op: Op, p: int): set<int> {
    if op.Release? then held - {op.p} else if p == NULL then held else held + {p}
  }

  ghost function Pointers(live: map<int, nat>): set<int> {
    set a | a in live :: a + HDR_SZ
  }

  lemma PointersAre(live: map<int, nat>, q: int)
    ensures q in Pointers(live) <==> q - HDR_SZ in live
  {
    if q - HDR_SZ in live { assert q - HDR_SZ + HDR_SZ in Pointers(live); }
  }

  lemma PointersChange(live: map<int, nat>, h: int, size: nat)
    ensures Pointers(live[h := size]) == Pointers(live) + {h + HDR_SZ}
    ensures Pointers(live - {h}) == Pointers(live) - {h + HDR_SZ}
  {
    var more, less := live[h := size], live - {h};
    forall q
      ensures q in Pointers(more) <==> q in Pointers(live) || q == h + HDR_SZ
      ensures q in Pointers(less) <==> q in Pointers(live) && q != h + HDR_SZ
    {
      PointersAre(live, q);
      PointersAre(more, q);
      PointersAre(less, q);
    }
    assert Pointers(more) == Pointers(live) + {h + HDR_SZ};
    assert Pointers(less) == Pointers(live) - {h + HDR_SZ};
  }

  lemma StepHeld(s: Heap, op: Op)
    requires Inv(s) && Legal(s, op)
    ensures Pointers(Live(Step(s, op).chunks)) == HeldAfter(Pointers(Live(s.chunks)), op, Answer(s, op))
  {
    var live, t := Live(s.chunks), Step(s, op);
    match op
    case Alloc(req) =>
      MallocComplete(s, req);
      var p := Malloc(s, req).1;
      if p != NULL {
        MallocGrants(s, req);
        PointersChange(live, p - HDR_SZ, t.chunks[p - HDR_SZ].size);
      }
    case Release(p) =>
      if p != NULL {
        FreeInv(s, p);
        PointersChange(live, p - HDR_SZ, 0);
      } else {
        PointersAre(live, NULL);
      }
  }

  /** The live chunks after a run are exactly those whose pointers the program was given and has
      not freed. */
  lemma {:induction false} RunHeld(s: Heap, ops: seq<Op>)
    requires Inv(s) && LegalRun(s, ops)
    ensures Pointers(Live(RunOps(s, ops).chunks)) == Held(Pointers(Live(s.chunks)), ops, Answers(s, ops))
    decreases |ops|
  {
    if ops != [] {
      StepInv(s, ops[0]);
      StepHeld(s, ops[0]);
      RunHeld(Step(s, ops[0]), ops[1..]);
    }
  }

  /** Two runs that leave the same live chunks leave the same chunks, whatever they did before. */
  lemma HistoryIndependence(cap: nat, ops: seq<Op>, ops': seq<Op>)
    requires cap % 16 == 0 && MIN_CHUNK <= cap && Inv(Init(cap))
    requires LegalRun(Init(cap), ops) && LegalRun(Init(cap), ops')
    requires Live(RunOps(Init(cap), ops).chunks) == Live(RunOps(Init(cap), ops').chunks)
    ensures RunOps(Init(cap), ops).chunks == RunOps(Init(cap), ops').chunks
  {
    Canonical(cap, RunOps(Init(cap), ops).chunks, RunOps(Init(cap), ops').chunks);
  }

  lemma StepKeepsLive(s: Heap, op: Op, b: int)
    requires Inv(s) && Legal(s, op) && b in Live(s.chunks) && op != Release(b + HDR_SZ)
    ensures var t := Step(s, op); b in Live(t.chunks) && Live(t.chunks)[b] == Live(s.chunks)[b]
  {
    match op
    case Alloc(req) => if Malloc(s, req).1 != NULL { MallocGrants(s, req); }
    case Release(p) => if p != NULL { FreeInv(s, p); }
  }

  /** A chunk handed out stays where it is, as large as it is, through any run that does not free
      it. */
  lemma {:induction false} LiveUntilFreed(s: Heap, ops: seq<Op>, b: int)
    requires Inv(s) && LegalRun(s, ops) && b in Live(s.chunks) && Release(b + HDR_SZ) !in ops
    ensures var t := RunOps(s, ops); b in Live(t.chunks) && Live(t.chunks)[b] == Live(s.chunks)[b]
    decreases |ops|
  {
    if ops != [] {
      StepKeepsLive(s, ops[0], b);
      StepInv(s, ops[0]);
      LiveUntilFreed(Step(s, ops[0]), ops[1..], b);
    }
  }

  /** The chunks of `live` that no call of the run frees. */
  ghost function Untouched(live: map<int, nat>, ops: seq<Op>): map<int, nat> {
    map b | b in live && Release(b + HDR_SZ) !in ops :: live[b]
  }

  lemma UntouchedOne(live: map<int, nat>, op: Op)
    ensures Within(Untouched(live, [op]), if op.Release? then live - {op.p - HDR_SZ} else live)
  {
  }

  lemma UntouchedStep(s: Heap, ops: seq<Op>)
    requires Inv(s) && ops != [] && Legal(s, ops[0])
    ensures var live := Untouched(Live(s.chunks), ops);
      && Within(live, Untouched(Live(s.chunks), [ops[0]]))
      && Within(live, Untouched(Live(Step(s, ops[0]).chunks), ops[1..]))
  {
    forall b | b in Untouched(Live(s.chunks), ops)
      ensures var t := Step(s, ops[0]); b in Live(t.chunks) && Live(t.chunks)[b] == Live(s.chunks)[b]
    {
      StepKeepsLive(s, ops[0], b);
    }
  }

  /** The last chunk freed, with the neighbours it merged with, is the first one tried: it serves
      the next request that fits, however the rest of the list looks. */
  lemma LastFreedFirst(s: Heap, p: int, req: nat)
    requires Inv(s) && IsLive(s, p) && req > 0
    ensures var t := Free(s, p);
      && Inv(t) && t.fl != [] && t.fl[0] in t.chunks
      && t.fl[0] <= p - HDR_SZ && End(s.chunks, p - HDR_SZ) <= End(t.chunks, t.fl[0])
      && (Need(req) <= t.chunks[t.fl[0]].size ==> Malloc(t, req).1 == t.fl[0] + HDR_SZ)
  {
    FreeInv(s, p);
    FreeExact(s, p);
  }

  function Releases(ps: seq<int>): seq<Op> {
    if ps == [] then [] else [Release(ps[0])] + Releases(ps[1..])
  }

  /** Freeing all live pointers, in any order, ends with the heap as `my_init` made it. */
  lemma {:induction false} FreeEverything(s: Heap, ps: seq<int>)
    requires Inv(s) && s.cap % 16 == 0 && MIN_CHUNK <= s.cap
    requires NoDup(ps) && forall p :: p in ps <==> IsLive(s, p)
    ensures LegalRun(s, Releases(ps)) && RunOps(s, Releases(ps)) == Init(s.cap)
    decreases |ps|
  {
    if ps == [] {
      forall a | a in s.chunks
        ensures s.chunks[a].free
      {
        assert IsLive(s, a + HDR_SZ) ==> a + HDR_SZ in ps;
      }
      InitInv(s.cap);
      Canonical(s.cap, s.chunks, Init(s.cap).chunks);
      OnlyZero(s.fl);
    } else {
      var t := Free(s, ps[0]);
      FreeInv(s, ps[0]);
      assert ps[0] in ps;
      forall p
        ensures p in ps[1..] <==> IsLive(t, p)
      {
        assert IsLive(t, p) <==> p - HDR_SZ in Live(t.chunks);
        assert IsLive(s, p) <==> p - HDR_SZ in Live(s.chunks);
        assert p in ps <==> p == ps[0] || p in ps[1..];
      }
      FreeEverything(t, ps[1..]);
      assert Releases(ps)[1..] == Releases(ps[1..]);
      assert Step(s, Release(ps[0])) == t;
    }
  }

  lemma OnlyZero(fl: seq<int>)
    requires NoDup(fl) && forall a :: a in fl <==> a == 0
    ensures fl == [0]
  {
    assert 0 in fl;
    var k := |fl| - 1;
    assert fl[0] in fl && fl[k] in fl;
  }
}
