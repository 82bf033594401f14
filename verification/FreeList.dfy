/** The boundary-tag heap in its own memory: headers, footers and the doubly linked free list
    all live in the region being managed. `mem[a]` is the 8-byte word at byte offset `a` of the
    region; every offset the allocator uses is a multiple of 8, so words never overlap.
    `heap_base` is offset 0, `heap_end` is `cap`, and a null pointer is stored as NULL. */
module FreeList {
  import opened Arithmetic
  import opened FreeListLayout
  import opened Lists

  // ---------- Words of a header ----------

  /** `size_flags`: the size, with the free bit in its low bit. */
  function Tag(c: Chunk): int { c.size + if c.free then 1 else 0 }

  /** Offsets of `prev_free` and `next_free` in a header. */
  const PREV := 8
  const NEXT := 16

  // ---------- What the memory says about the chunks ----------

  /** Header and footer of every chunk carry its size and free bit. */
  ghost predicate Tags(m: seq<int>, L: Layout) {
    forall a :: a in L ==>
      0 <= a && a + MIN_CHUNK <= End(L, a) <= |m| && m[a] == Tag(L[a]) && m[End(L, a) - FTR_SZ] == Tag(L[a])
  }

  /** The links of the list node at position i. */
  ghost predicate Linked(m: seq<int>, fl: seq<int>, i: int)
    requires 0 <= i < |fl|
  {
    && 0 <= fl[i] && fl[i] % 16 == 0 && fl[i] + NEXT < |m|
    && m[fl[i] + PREV] == Nth(fl, i - 1) && m[fl[i] + NEXT] == Nth(fl, i + 1)
  }

  /** From `head`, the links run through exactly fl and back. */
  ghost predicate Links(m: seq<int>, head: int, fl: seq<int>) {
    && NoDup(fl)
    && head == Nth(fl, 0)
    && forall i :: 0 <= i < |fl| ==> Linked(m, fl, i)
  }

  /** Only words in [lo, hi) differ. */
  ghost predicate SameOutside(m: seq<int>, m': seq<int>, lo: int, hi: int) {
    && |m| == |m'|
    && forall k :: 0 <= k < |m| && !(lo <= k < hi) ==> m'[k] == m[k]
  }

  /** Only link words of the listed chunks differ. */
  ghost predicate SameButLinks(m: seq<int>, m': seq<int>, fl: seq<int>) {
    && |m| == |m'|
    && forall k :: 0 <= k < |m| && m'[k] != m[k] ==> k - PREV in fl || k - NEXT in fl
  }

  /** What `fl_insert(h)` writes. */
  ghost function Inserted(m: seq<int>, head: int, h: int): seq<int>
    requires 0 <= h && h + NEXT < |m| && (head != NULL ==> 0 <= head && head + PREV < |m|)
  {
    var m1 := m[h + PREV := NULL][h + NEXT := head];
    if head != NULL then m1[head + PREV := h] else m1
  }

  lemma InsertLinks(m: seq<int>, head: int, fl: seq<int>, h: int)
    requires Links(m, head, fl) && 0 <= h && h % 16 == 0 && h + NEXT < |m| && h !in fl
    ensures head != NULL ==> 0 <= head && head + PREV < |m|
    ensures Links(Inserted(m, head, h), h, [h] + fl)
    ensures SameButLinks(m, Inserted(m, head, h), [h] + fl)
  {
    if fl != [] { assert Linked(m, fl, 0); }
    var m', fl' := Inserted(m, head, h), [h] + fl;
    forall i | 0 <= i < |fl'|
      ensures Linked(m', fl', i)
    {
      if i > 0 {
        assert Linked(m, fl, i - 1) && fl'[i] in fl;
      }
    }
  }

  /** What `fl_remove(h)` writes, with `prev` and `next` the links of h. */
  ghost function Unlinked(m: seq<int>, prev: int, next: int): seq<int>
    requires prev != NULL ==> 0 <= prev && prev + NEXT < |m|
    requires next != NULL ==> 0 <= next && next + PREV < |m|
  {
    var m1 := if prev != NULL then m[prev + NEXT := next] else m;
    if next != NULL then m1[next + PREV := prev] else m1
  }

  lemma UnlinkInRange(m: seq<int>, head: int, fl: seq<int>, i: nat)
    requires Links(m, head, fl) && i < |fl|
    ensures Linked(m, fl, i)
    ensures var prev := m[fl[i] + PREV];
      prev != fl[i] && (prev != NULL ==> 0 <= prev && prev % 16 == 0 && prev + NEXT < |m|)
    ensures var next := m[fl[i] + NEXT]; next != fl[i] && (next != NULL ==> 0 <= next && next + NEXT < |m|)
  {
    assert Linked(m, fl, i);
    if i > 0 { assert Linked(m, fl, i - 1); }
    if i + 1 < |fl| { assert Linked(m, fl, i + 1); }
  }

  lemma UnlinkNode(m: seq<int>, head: int, fl: seq<int>, i: nat, k: nat)
    requires Links(m, head, fl) && i < |fl| && k < |fl| && k != i
    requires forall j :: 0 <= j < |fl| ==> Linked(m, fl, j)
    ensures var prev, next := Nth(fl, i - 1), Nth(fl, i + 1);
      && (prev != NULL ==> 0 <= prev && prev + NEXT < |m|)
      && (next != NULL ==> 0 <= next && next + NEXT < |m|)
      && Linked(Unlinked(m, prev, next), fl[..i] + fl[i + 1..], if k < i then k else k - 1)
  {
    assert Linked(m, fl, k);
    assert i > 0 ==> Linked(m, fl, i - 1);
    assert i + 1 < |fl| ==> Linked(m, fl, i + 1);
  }

  lemma UnlinkFrame(m: seq<int>, fl: seq<int>, prev: int, next: int)
    requires prev != NULL ==> prev in fl && 0 <= prev && prev + NEXT < |m|
    requires next != NULL ==> next in fl && 0 <= next && next + NEXT < |m|
    ensures SameButLinks(m, Unlinked(m, prev, next), fl)
  {
  }

  lemma UnlinkNodes(m: seq<int>, head: int, fl: seq<int>, i: nat, m': seq<int>, fl': seq<int>)
    requires Links(m, head, fl) && i < |fl| && fl' == fl[..i] + fl[i + 1..]
    requires var prev, next := Nth(fl, i - 1), Nth(fl, i + 1);
      && (prev != NULL ==> 0 <= prev && prev + NEXT < |m|)
      && (next != NULL ==> 0 <= next && next + NEXT < |m|)
      && m' == Unlinked(m, prev, next)
    ensures forall j :: 0 <= j < |fl'| ==> Linked(m', fl', j)
  {
    forall j | 0 <= j < |fl'|
      ensures Linked(m', fl', j)
    {
      UnlinkNode(m, head, fl, i, if j < i then j else j + 1);
    }
  }

  lemma UnlinkHead(m: seq<int>, head: int, fl: seq<int>, i: nat)
    requires Links(m, head, fl) && i < |fl|
    ensures var prev, next := Nth(fl, i - 1), Nth(fl, i + 1);
      (if prev != NULL then head else next) == Nth(fl[..i] + fl[i + 1..], 0)
  {
    if i > 0 { assert Linked(m, fl, i - 1); }
  }

  /** Unlinking deletes exactly the target from the list, front and back pointers alike. */
  lemma UnlinkLinks(m: seq<int>, head: int, fl: seq<int>, i: nat, prev: int, next: int)
    requires Links(m, head, fl) && i < |fl| && prev == Nth(fl, i - 1) && next == Nth(fl, i + 1)
    requires prev != NULL ==> 0 <= prev && prev + NEXT < |m|
    requires next != NULL ==> 0 <= next && next + NEXT < |m|
    ensures Links(Unlinked(m, prev, next), if prev != NULL then head else next, Remove(fl, fl[i]))
    ensures SameButLinks(m, Unlinked(m, prev, next), fl)
  {
    var fl' := fl[..i] + fl[i + 1..];
    RemoveAt(fl, i);
    RemoveKeeps(fl, fl[i]);
    UnlinkNodes(m, head, fl, i, Unlinked(m, prev, next), fl');
    UnlinkHead(m, head, fl, i);
    UnlinkFrame(m, fl, prev, next);
  }

  // ---------- Writes that leave chunks alone ----------

  /** No word of any of these chunks differs: header, payload, footer. */
  ghost predicate Kept(m: seq<int>, m': seq<int>, live: map<int, nat>) {
    |m| == |m'| && forall b :: b in live ==> SameIn(m, m', b, b + live[b])
  }

  ghost predicate Disjoint(L: Layout) {
    && (forall a :: a in L ==> 0 <= a && a % 16 == 0 && L[a].size % 16 == 0 && MIN_CHUNK <= L[a].size)
    && Ordered(L)
  }

  /** Link words of free chunks are neither tags nor part of a live chunk. */
  lemma LinksInside(m: seq<int>, m': seq<int>, L: Layout, fl: seq<int>)
    requires Disjoint(L) && SameButLinks(m, m', fl)
    requires forall x :: x in fl ==> x in L && L[x].free
    ensures Kept(m, m', Live(L))
    ensures Tags(m, L) ==> Tags(m', L)
  {
    forall a, k | a in L && a <= k < End(L, a) && 0 <= k < |m| && m'[k] != m[k]
      ensures L[a].free && (k == a + PREV || k == a + NEXT)
    {
      var x := if k - PREV in fl then k - PREV else k - NEXT;
      assert x in L;
    }
    if Tags(m, L) {
      forall a | a in L
        ensures m'[a] == m[a] && m'[End(L, a) - FTR_SZ] == m[End(L, a) - FTR_SZ]
      {
      }
    }
  }

  ghost function Tagged(m: seq<int>, h: int, c: Chunk): seq<int>
    requires 0 <= h && MIN_CHUNK <= c.size && h + c.size <= |m|
  {
    m[h := Tag(c)][h + c.size - FTR_SZ := Tag(c)]
  }

  /** `set_size` on a chunk that replaces others turns the tags of L into those of L'. */
  lemma TaggedTags(m: seq<int>, L: Layout, h: int, L': Layout)
    requires Tags(m, L) && Disjoint(L') && h in L' && End(L', h) <= |m|
    requires forall a :: a in L' && a != h ==> a in L && L[a] == L'[a]
    ensures Tags(Tagged(m, h, L'[h]), L')
    ensures Kept(m, Tagged(m, h, L'[h]), Live(L') - {h})
  {
    var m' := Tagged(m, h, L'[h]);
    forall a | a in L' && a != h
      ensures SameIn(m, m', a, End(L', a))
    {
      assert End(L', a) <= h || End(L', h) <= a;
    }
  }

  lemma TaggedLinks(m: seq<int>, head: int, fl: seq<int>, h: int, c: Chunk)
    requires Links(m, head, fl) && 0 <= h && MIN_CHUNK <= c.size && h + c.size <= |m|
    requires forall x :: x in fl ==> x + MIN_CHUNK <= h || h + c.size <= x
    ensures Links(Tagged(m, h, c), head, fl)
  {
    forall i | 0 <= i < |fl|
      ensures Linked(Tagged(m, h, c), fl, i)
    {
      assert Linked(m, fl, i) && fl[i] in fl;
    }
  }

  ghost function FirstFitOf(s: Heap, need: nat): (i: nat)
    requires Exact(s.chunks, s.fl)
    ensures i <= |s.fl|
  {
    assert forall j {:trigger s.fl[j]} :: 0 <= j < |s.fl| ==> s.fl[j] in s.fl;
    FirstFit(s.chunks, s.fl, need)
  }

  /** First fit is the only position with smaller chunks before it and a large enough one at it. */
  lemma FirstFitIs(s: Heap, need: nat, i: nat)
    requires Exact(s.chunks, s.fl) && i <= |s.fl|
    requires forall j :: 0 <= j < i ==> s.fl[j] in s.chunks && s.chunks[s.fl[j]].size < need
    requires i < |s.fl| ==> s.fl[i] in s.chunks && need <= s.chunks[s.fl[i]].size
    ensures FirstFitOf(s, need) == i
  {
    assert forall j {:trigger s.fl[j]} :: 0 <= j < |s.fl| ==> s.fl[j] in s.fl;
  }

  /** The free list fl threads free chunks of L, and the memory agrees with both. */
  ghost predicate Mem(m: seq<int>, head: int, L: Layout, fl: seq<int>) {
    Tags(m, L) && Links(m, head, fl)
  }

  ghost predicate Shape(L: Layout, fl: seq<int>) {
    Disjoint(L) && forall x :: x in fl ==> x in L && L[x].free
  }

  /** L' is L with h resized or retagged and possibly other chunks gone. */
  ghost predicate Resized(L: Layout, L': Layout, h: int, c: Chunk) {
    && h in L' && L'[h] == c
    && forall a :: a in L' && a != h ==> a in L && L[a] == L'[a]
  }

  lemma RetagMem(m: seq<int>, head: int, L: Layout, L': Layout, fl: seq<int>, h: int, c: Chunk)
    requires Mem(m, head, L, fl) && Shape(L', fl) && Resized(L, L', h, c) && h !in fl && End(L', h) <= |m|
    ensures 0 <= h && MIN_CHUNK <= c.size && Mem(Tagged(m, h, c), head, L', fl)
    ensures Kept(m, Tagged(m, h, c), Live(L') - {h})
  {
    TaggedTags(m, L, h, L');
    TaggedLinks(m, head, fl, h, c);
  }

  lemma LinksMem(m: seq<int>, m': seq<int>, head: int, L: Layout, fl: seq<int>, fl': seq<int>)
    requires Tags(m, L) && Shape(L, fl) && SameButLinks(m, m', fl) && Links(m', head, fl')
    ensures Mem(m', head, L, fl') && Kept(m, m', Live(L))
  {
    LinksInside(m, m', L, fl);
  }

  lemma TiledShape(cap: nat, L: Layout, fl: seq<int>)
    requires Tiled(cap, L) && forall x :: x in fl ==> x in L && L[x].free
    ensures Shape(L, fl)
  {
  }

  lemma KeptSame(m: seq<int>, live: map<int, nat>)
    ensures Kept(m, m, live)
  {
  }

  lemma KeptSome(m: seq<int>, m': seq<int>, live: map<int, nat>, live': map<int, nat>)
    requires Kept(m, m', live') && Within(live, live')
    ensures Kept(m, m', live)
  {
    forall b | b in live
      ensures SameIn(m, m', b, b + live[b])
    {
      assert SameIn(m, m', b, b + live'[b]);
    }
  }

  lemma KeptTrans(m0: seq<int>, m1: seq<int>, m2: seq<int>, live: map<int, nat>, live': map<int, nat>)
    requires Kept(m0, m1, live) && Kept(m1, m2, live') && Within(live, live')
    ensures Kept(m0, m2, live)
  {
    forall b | b in live
      ensures SameIn(m0, m2, b, b + live[b])
    {
      assert SameIn(m0, m1, b, b + live[b]) && SameIn(m1, m2, b, b + live[b]);
    }
  }

  /** Splitting h, already off the list: the layouts after each `set_size`. */
  ghost predicate SplitPlan(L: Layout, rest: seq<int>, h: int, need: nat, left: nat) {
    && h in L && L[h].size == need + left && h !in rest && h + need !in rest
    && var L1, L2 := L[h := Chunk(need, false)], Split(L, h, need);
      && Shape(L1, rest) && Resized(L, L1, h, Chunk(need, false))
      && Shape(L2, rest) && Resized(L1, L2, h + need, Chunk(left, true))
      && Shape(L2, [h + need] + rest)
      && Within(Live(L), Live(L1) - {h}) && Within(Live(L), Live(L2) - {h + need}) && Within(Live(L), Live(L2))
  }

  lemma SplitShape(s: Heap, h: int, need: nat)
    requires Inv(s) && h in s.fl && need % 16 == 0 && MIN_CHUNK <= need && need + MIN_CHUNK <= s.chunks[h].size
    ensures SplitPlan(s.chunks, Remove(s.fl, h), h, need, s.chunks[h].size - need)
  {
    RemoveKeeps(s.fl, h);
    SplitTiled(s.cap, s.chunks, h, need);
  }

  lemma WholeShape(s: Heap, h: int)
    requires Inv(s) && h in s.fl
    ensures var L, rest, c := s.chunks, Remove(s.fl, h), Chunk(s.chunks[h].size, false);
      && Shape(L[h := c], rest) && Resized(L, L[h := c], h, c) && h !in rest
      && Within(Live(L), Live(L[h := c]) - {h})
  {
    RemoveKeeps(s.fl, h);
  }

  lemma LowBit(k: int, bit: int)
    requires 0 <= bit <= 1
    ensures (2 * k + bit) % 2 == bit
  {
  }

  /** `csz` and `cfree` read back what `set_size` packed into one word. */
  lemma TagParts(c: Chunk)
    requires c.size % 16 == 0
    ensures Tag(c) - Tag(c) % 2 == c.size && (Tag(c) % 2 == 1 <==> c.free)
  {
    var k, bit := c.size / 16, if c.free then 1 else 0;
    assert c.size == 2 * (8 * k);
    LowBit(8 * k, bit);
    var w := 2 * (8 * k) + bit;
    assert Tag(c) == w;
  }

  /** What the header of a chunk says to `csz` and `cfree`. */
  lemma Header(m: seq<int>, L: Layout, a: int)
    requires Tags(m, L) && a in L && L[a].size % 16 == 0
    ensures 0 <= a < |m| && m[a] - m[a] % 2 == L[a].size && (m[a] % 2 == 1 <==> L[a].free)
    ensures End(L, a) <= |m|
  {
    TagParts(L[a]);
    var w := m[a];
    assert w == Tag(L[a]);
  }

  lemma MarkShape(s: Heap, h: int)
    requires Inv(s) && h in s.chunks && !s.chunks[h].free
    ensures var L' := Mark(s, h).chunks;
      && Shape(L', s.fl) && Resized(s.chunks, L', h, Chunk(s.chunks[h].size, true)) && h !in s.fl
      && Live(L') - {h} == Live(s.chunks) - {h} && End(s.chunks, h) <= s.cap
  {
  }

  ghost predicate FusePlan(L: Layout, fl: seq<int>, a: int, b: int, off: int) {
    && a in L && b in L && End(L, a) == b && off in fl && NoDup(fl) && Shape(L, fl)
    && L[a].size % 16 == 0 && L[b].size % 16 == 0
    && var L' := Absorb(L, a, b);
      && Shape(L', Remove(fl, off)) && Resized(L, L', a, Chunk(L[a].size + L[b].size, true))
      && a !in Remove(fl, off) && Within(Live(L), Live(L') - {a})
  }

  lemma FuseShape(s: Heap, h: int, a: int, off: int)
    requires Pending(s, h) && a in s.chunks && End(s.chunks, a) in s.chunks
    requires var b := End(s.chunks, a);
      s.chunks[a].free && s.chunks[b].free && ((off == a && b == h) || (off == b && a == h))
    ensures FusePlan(s.chunks, s.fl, a, End(s.chunks, a), off)
    ensures End(s.chunks, End(s.chunks, a)) <= s.cap
  {
    RemoveKeeps(s.fl, off);
    AbsorbTiled(s.cap, s.chunks, a);
    var b := End(s.chunks, a);
    var L' := Absorb(s.chunks, a, b);
    TiledShape(s.cap, s.chunks, s.fl);
    TiledShape(s.cap, L', Remove(s.fl, off));
    assert Within(Live(s.chunks), Live(L') - {a});
  }

  /** `(char *)n < heap_end && cfree(n)` holds exactly when h has a free next neighbour. */
  lemma NextIs(s: Heap, h: int, m: seq<int>)
    requires Pending(s, h) && Tags(m, s.chunks) && |m| == s.cap
    ensures 0 <= h < s.cap && m[h] - m[h] % 2 == s.chunks[h].size
    ensures 0 <= End(s.chunks, h) <= s.cap
    ensures HasNext(s.chunks, h) <==> End(s.chunks, h) < s.cap && m[End(s.chunks, h)] % 2 == 1
  {
    assert Followed(s.cap, s.chunks, h);
    Header(m, s.chunks, h);
    if End(s.chunks, h) in s.chunks { Header(m, s.chunks, End(s.chunks, h)); }
  }

  lemma FooterTag(m: seq<int>, L: Layout, q: int)
    requires Tags(m, L) && q in L && L[q].size % 16 == 0
    ensures var f := End(L, q) - FTR_SZ; 0 <= f < |m| && m[f] - m[f] % 2 == L[q].size
  {
    TagParts(L[q]);
    var w := m[End(L, q) - FTR_SZ];
    assert w == Tag(L[q]);
  }

  /** The word before a header is the footer of the chunk before it. */
  lemma Footer(cap: nat, L: Layout, h: int, m: seq<int>) returns (q: int)
    requires Tiled(cap, L) && h in L && h != 0 && Tags(m, L) && |m| == cap
    ensures 0 <= h - FTR_SZ < |m| && q in L && End(L, q) == h
    ensures m[h - FTR_SZ] - m[h - FTR_SZ] % 2 == L[q].size
  {
    q := Predecessor(cap, L, h);
    FooterTag(m, L, q);
  }

  /** `pr && cfree(pr)` holds exactly when h has a free previous neighbour, and that is pr. */
  lemma PrevIs(s: Heap, pr: int, h: int, m: seq<int>)
    requires Pending(s, h) && Tags(m, s.chunks) && |m| == s.cap
    requires h == 0 ==> pr == NULL
    requires h != 0 ==> pr in s.chunks && End(s.chunks, pr) == h
    ensures pr != NULL ==> 0 <= pr < s.cap && pr in s.chunks && End(s.chunks, pr) == h
    ensures pr != NULL && m[pr] % 2 == 1 ==> s.chunks[pr].free
    ensures pr != NULL && m[pr] % 2 == 1 ==>
      MergePrev(s, h) == s.(chunks := Absorb(s.chunks, pr, h), fl := [pr] + Remove(s.fl, pr))
    ensures pr == NULL || m[pr] % 2 == 0 ==> MergePrev(s, h) == s.(fl := [h] + s.fl)
  {
    assert forall q :: IsPrev(s.chunks, q, h) ==> q == pr;
    if pr in s.chunks {
      Header(m, s.chunks, pr);
      assert s.chunks[pr].free ==> IsPrev(s.chunks, pr, h);
    }
  }

  /** Headers and footers lie outside every live payload, and payloads outside each other. */
  lemma PayloadTags(m: seq<int>, m': seq<int>, L: Layout, h: int)
    requires Tags(m, L) && Disjoint(L) && h in L
    requires SameOutside(m, m', h + HDR_SZ, End(L, h) - FTR_SZ)
    ensures Tags(m', L) && Kept(m, m', Live(L) - {h})
  {
  }

  /** Links lie outside every live payload. */
  lemma PayloadLinks(m: seq<int>, m': seq<int>, head: int, L: Layout, fl: seq<int>, h: int)
    requires Links(m, head, fl) && Shape(L, fl) && h in L && !L[h].free
    requires SameOutside(m, m', h + HDR_SZ, End(L, h) - FTR_SZ)
    ensures Links(m', head, fl)
  {
    forall i | 0 <= i < |fl|
      ensures Linked(m', fl, i)
    {
      assert Linked(m, fl, i) && fl[i] in fl;
    }
  }

  lemma MallocIs(s: Heap, req: nat, h: int)
    requires Inv(s) && req > 0 && h == Nth(s.fl, FirstFitOf(s, Need(req)))
    ensures h == NULL ==> Malloc(s, req) == (s, NULL)
    ensures h != NULL ==> h in s.fl && h in s.chunks && Need(req) <= s.chunks[h].size
    ensures h != NULL ==> Malloc(s, req) == (Take(s, h, Need(req)), h + HDR_SZ)
  {
    var i := FirstFitOf(s, Need(req));
    assert i < |s.fl| ==> s.fl[i] in s.fl;
    assert forall j {:trigger s.fl[j]} :: 0 <= j < |s.fl| ==> s.fl[j] in s.fl;
  }

  /** What inserting the head of t's list, the last step of an operation, needs and keeps. */
  lemma HeadPlan(t: Heap)
    requires Inv(t) && t.fl != []
    ensures var h, rest := t.fl[0], t.fl[1..];
      && [h] + rest == t.fl && h in t.chunks && h !in rest && Shape(t.chunks, [h] + rest)
  {
    assert t.fl[0] in t.fl;
  }

  /** What the search of `my_malloc` sees at position i of the list. */
  lemma ListNode(m: seq<int>, head: int, s: Heap, i: nat)
    requires Inv(s) && Tags(m, s.chunks) && Links(m, head, s.fl) && i < |s.fl|
    ensures var h := s.fl[i];
      && h in s.chunks && 0 <= h && h + NEXT < |m| && h != NULL
      && m[h] - m[h] % 2 == s.chunks[h].size && m[h + NEXT] == Nth(s.fl, i + 1)
  {
    assert s.fl[i] in s.fl && Linked(m, s.fl, i);
    Header(m, s.chunks, s.fl[i]);
  }

  lemma WholePages(k: nat)
    requires k > 0
    ensures k * 4096 % 16 == 0 && MIN_CHUNK <= k * 4096
  {
    assert k * 4096 == 16 * (k * 256);
  }

  class Allocator {
    const cap: nat
    const mem: array<int>
    var free_head: int
    ghost var s: Heap

    ghost predicate Valid()
      reads this, mem
    {
      && mem.Length == cap == s.cap
      && Inv(s)
      && Tags(mem[..], s.chunks)
      && Links(mem[..], free_head, s.fl)
    }

    function Csz(h: int): int
      requires 0 <= h < mem.Length
      reads mem
    {
      mem[h] - mem[h] % 2
    }

    predicate Cfree(h: int)
      requires 0 <= h < mem.Length
      reads mem
    {
      mem[h] % 2 == 1
    }

    method SetSize(h: int, sz: nat, free: bool)
      requires 0 <= h && sz % 16 == 0 && MIN_CHUNK <= sz && h + sz <= mem.Length
      modifies mem
      ensures mem[..] == Tagged(old(mem[..]), h, Chunk(sz, free))
    {
      TagParts(Chunk(sz, free));
      mem[h] := sz + if free then 1 else 0;
      assert mem[h] == Tag(Chunk(sz, free)) && Csz(h) == sz;
      mem[h + Csz(h) - FTR_SZ] := mem[h];
    }

    method FlInsert(h: int, ghost fl: seq<int>)
      requires Links(mem[..], free_head, fl)
      requires 0 <= h && h % 16 == 0 && h + NEXT < mem.Length && h !in fl
      modifies mem, `free_head
      ensures Links(mem[..], free_head, [h] + fl)
      ensures SameButLinks(old(mem[..]), mem[..], [h] + fl)
    {
      InsertLinks(mem[..], free_head, fl, h);
      mem[h + PREV] := NULL;
      mem[h + NEXT] := free_head;
      if free_head != NULL {
        mem[free_head + PREV] := h;
      }
      assert mem[..] == Inserted(old(mem[..]), free_head, h);
      free_head := h;
    }

    method FlRemove(h: int, ghost fl: seq<int>)
      requires Links(mem[..], free_head, fl) && h in fl
      modifies mem, `free_head
      ensures Links(mem[..], free_head, Remove(fl, h))
      ensures SameButLinks(old(mem[..]), mem[..], fl)
    {
      ghost var i :| 0 <= i < |fl| && fl[i] == h;
      UnlinkInRange(mem[..], free_head, fl, i);
      UnlinkLinks(mem[..], free_head, fl, i, mem[h + PREV], mem[h + NEXT]);
      if mem[h + PREV] != NULL {
        mem[mem[h + PREV] + NEXT] := mem[h + NEXT];
      } else {
        free_head := mem[h + NEXT];
      }
      assert mem[h + NEXT] == old(mem[h + NEXT]) && mem[h + PREV] == old(mem[h + PREV]);
      if mem[h + NEXT] != NULL {
        mem[mem[h + NEXT] + PREV] := mem[h + PREV];
      }
      assert mem[..] == Unlinked(old(mem[..]), old(mem[h + PREV]), old(mem[h + NEXT]));
    }

    // ---------- my_init, my_malloc, my_free ----------

    /** `my_init` on a region mmap has granted; `bytes` is rounded up to whole pages. */
    constructor (bytes: nat)
      requires bytes > 0
      ensures Valid()
      ensures cap == (bytes + 4095) / 4096 * 4096
      ensures s == Init(cap)
      ensures fresh(mem)
    {
      var c := (bytes + 4095) / 4096 * 4096;
      WholePages((bytes + 4095) / 4096);
      cap := c;
      mem := new int[c];
      free_head := NULL;
      s := Init(c);
      new;
      SetSize(0, cap, true);
      FlInsert(0, []);
      InitInv(cap);
      assert [0] + [] == s.fl;
    }

    // ---------- The primitives, with the chunks they act on ----------

    method Unlink(h: int, ghost L: Layout, ghost fl: seq<int>)
      requires Mem(mem[..], free_head, L, fl) && Shape(L, fl) && h in fl
      modifies mem, `free_head
      ensures Mem(mem[..], free_head, L, Remove(fl, h))
      ensures Kept(old(mem[..]), mem[..], Live(L))
    {
      FlRemove(h, fl);
      LinksMem(old(mem[..]), mem[..], free_head, L, fl, Remove(fl, h));
    }

    method Link(h: int, ghost L: Layout, ghost fl: seq<int>)
      requires Mem(mem[..], free_head, L, fl) && Shape(L, [h] + fl) && h !in fl && h in L
      modifies mem, `free_head
      ensures Mem(mem[..], free_head, L, [h] + fl)
      ensures Kept(old(mem[..]), mem[..], Live(L))
    {
      FlInsert(h, fl);
      LinksMem(old(mem[..]), mem[..], free_head, L, [h] + fl, [h] + fl);
    }

    method Retag(h: int, sz: nat, free: bool, ghost L: Layout, ghost L': Layout, ghost fl: seq<int>)
      requires Mem(mem[..], free_head, L, fl) && Shape(L', fl) && Resized(L, L', h, Chunk(sz, free)) && h !in fl
      requires h + sz <= mem.Length
      modifies mem
      ensures Mem(mem[..], free_head, L', fl)
      ensures Kept(old(mem[..]), mem[..], Live(L') - {h})
    {
      RetagMem(mem[..], free_head, L, L', fl, h, Chunk(sz, free));
      SetSize(h, sz, free);
    }

    method CarveSplit(h: int, need: nat, leftover: nat, ghost L: Layout, ghost rest: seq<int>)
      requires Mem(mem[..], free_head, L, rest) && SplitPlan(L, rest, h, need, leftover)
      requires need % 16 == 0 && MIN_CHUNK <= need && h + need + leftover <= mem.Length
      modifies mem, `free_head
      ensures Mem(mem[..], free_head, Split(L, h, need), [h + need] + rest)
      ensures Kept(old(mem[..]), mem[..], Live(L))
    {
      ghost var L1, L2 := L[h := Chunk(need, false)], Split(L, h, need);
      ghost var live, m0 := Live(L), mem[..];
      Retag(h, need, false, L, L1, rest);
      ghost var m1 := mem[..];
      Header(m1, L1, h);
      var r := h + Csz(h);
      Retag(r, leftover, true, L1, L2, rest);
      ghost var m2 := mem[..];
      KeptTrans(m0, m1, m2, live, Live(L2) - {r});
      Link(r, L2, rest);
      KeptTrans(m0, m2, mem[..], live, Live(L2));
    }

    /** The body of `my_malloc`'s search once h is large enough. */
    method Carve(h: int, need: nat)
      requires Valid() && h in s.fl && need % 16 == 0 && MIN_CHUNK <= need <= s.chunks[h].size
      modifies mem, `free_head, `s
      ensures Valid() && s == Take(old(s), h, need)
      ensures Kept(old(mem[..]), mem[..], Live(old(s.chunks)))
    {
      TakeInv(s, h, need);
      TiledShape(s.cap, s.chunks, s.fl);
      ghost var L := s.chunks;
      ghost var live := Live(L);
      ghost var rest := Remove(s.fl, h);
      Unlink(h, L, s.fl);
      ghost var m1 := mem[..];
      Header(m1, L, h);
      var leftover := Csz(h) - need;
      if leftover >= MIN_CHUNK {
        SplitShape(s, h, need);
        CarveSplit(h, need, leftover, L, rest);
        KeptTrans(old(mem[..]), m1, mem[..], live, live);
      } else {
        WholeShape(s, h);
        Retag(h, Csz(h), false, L, L[h := Chunk(L[h].size, false)], rest);
        KeptTrans(old(mem[..]), m1, mem[..], live, Live(L[h := Chunk(L[h].size, false)]) - {h});
      }
      s := Take(s, h, need);
    }

    /** The search loop of `my_malloc`. */
    method Search(need: nat) returns (h: int)
      requires Valid()
      ensures h == Nth(s.fl, FirstFitOf(s, need))
    {
      h := free_head;
      ghost var i := 0;
      while h != NULL
        invariant 0 <= i <= |s.fl| && h == Nth(s.fl, i)
        invariant forall j :: 0 <= j < i ==> s.fl[j] in s.chunks && s.chunks[s.fl[j]].size < need
        decreases |s.fl| - i
      {
        ListNode(mem[..], free_head, s, i);
        assert h == s.fl[i] && Csz(h) == s.chunks[h].size;
        if Csz(h) >= need {
          break;
        }
        h := mem[h + NEXT];
        i := i + 1;
      }
      if i < |s.fl| { ListNode(mem[..], free_head, s, i); }
      FirstFitIs(s, need, i);
    }

    method MyMalloc(req: nat) returns (p: int)
      requires Valid()
      modifies mem, `free_head, `s
      ensures Valid()
      ensures (s, p) == Malloc(old(s), req)
      ensures Kept(old(mem[..]), mem[..], Live(old(s.chunks)))
    {
      KeptSame(mem[..], Live(s.chunks));
      if req == 0 {
        return NULL;
      }
      var need := AlignUp(req + HDR_SZ + FTR_SZ);
      if need < MIN_CHUNK {
        need := MIN_CHUNK;
      }
      AlignUpBounds(req + HDR_SZ + FTR_SZ);
      var h := Search(need);
      MallocIs(s, req, h);
      if h == NULL {
        return NULL;
      }
      Carve(h, need);
      return h + HDR_SZ;
    }

    /** Between the steps of `my_free`: chunk h is free in memory but not on the list. */
    ghost predicate Midway(h: int)
      reads this, mem
    {
      && mem.Length == cap == s.cap
      && Pending(s, h)
      && Mem(mem[..], free_head, s.chunks, s.fl)
    }

    method MarkFree(h: int)
      requires Valid() && h in s.chunks && !s.chunks[h].free
      modifies mem, `s
      ensures Midway(h) && s == Mark(old(s), h)
      ensures Kept(old(mem[..]), mem[..], Live(old(s.chunks)) - {h})
    {
      MarkPending(s, h);
      MarkShape(s, h);
      Header(mem[..], s.chunks, h);
      Retag(h, Csz(h), true, s.chunks, Mark(s, h).chunks, s.fl);
      s := Mark(s, h);
    }

    /** `fl_remove(off); set_size(a, csz(a) + csz(b), 1)` for free neighbours a and b, one of
        which is on the list: both coalescing steps do this. */
    method Fuse(a: int, b: int, off: int, ghost L: Layout, ghost fl: seq<int>)
      requires Mem(mem[..], free_head, L, fl) && FusePlan(L, fl, a, b, off) && End(L, b) <= mem.Length
      modifies mem, `free_head
      ensures Mem(mem[..], free_head, Absorb(L, a, b), Remove(fl, off))
      ensures Kept(old(mem[..]), mem[..], Live(L))
    {
      Unlink(off, L, fl);
      ghost var m1 := mem[..];
      Header(m1, L, a);
      Header(m1, L, b);
      Retag(a, Csz(a) + Csz(b), true, L, Absorb(L, a, b), Remove(fl, off));
      KeptTrans(old(mem[..]), m1, mem[..], Live(L), Live(Absorb(L, a, b)) - {a});
    }

    /** The final `fl_insert`: the operation ends in t. */
    method Finish(h: int, ghost t: Heap)
      requires mem.Length == cap == t.cap && Inv(t) && t.fl != [] && h == t.fl[0]
      requires Mem(mem[..], free_head, t.chunks, t.fl[1..])
      modifies mem, `free_head, `s
      ensures Valid() && s == t
      ensures Kept(old(mem[..]), mem[..], Live(t.chunks))
    {
      HeadPlan(t);
      Link(h, t.chunks, t.fl[1..]);
      s := t;
    }

    method CoalesceNext(h: int)
      requires Midway(h)
      modifies mem, `free_head, `s
      ensures Midway(h) && s == MergeNext(old(s), h)
      ensures Kept(old(mem[..]), mem[..], Live(old(s.chunks)))
    {
      ghost var t := MergeNext(s, h);
      MergeNextPending(s, h);
      NextIs(s, h, mem[..]);
      KeptSame(mem[..], Live(s.chunks));
      var n := h + Csz(h);
      if n < cap && Cfree(n) {
        FuseShape(s, h, h, n);
        Fuse(h, n, n, s.chunks, s.fl);
      }
      assert Mem(mem[..], free_head, t.chunks, t.fl);
      s := t;
    }

    /** `prev_of(h)`. */
    method PrevOf(h: int, ghost L: Layout) returns (pr: int)
      requires mem.Length == cap && Tiled(cap, L) && Tags(mem[..], L) && h in L
      ensures h == 0 ==> pr == NULL
      ensures h != 0 ==> pr in L && End(L, pr) == h
    {
      if h == 0 {
        return NULL;
      }
      ghost var q := Footer(cap, L, h, mem[..]);
      pr := h - (mem[h - FTR_SZ] - mem[h - FTR_SZ] % 2);
    }

    /** The second coalescing step and the insertion. */
    method CoalescePrev(h0: int)
      requires Midway(h0) && !HasNext(s.chunks, h0)
      modifies mem, `free_head, `s
      ensures Valid() && s == MergePrev(old(s), h0)
      ensures Kept(old(mem[..]), mem[..], Live(old(s.chunks)))
    {
      ghost var t := MergePrev(s, h0);
      ghost var L := s.chunks;
      MergePrevInv(s, h0);
      var h := h0;
      var pr := PrevOf(h, L);
      PrevIs(s, pr, h, mem[..]);
      if pr != NULL && Cfree(pr) {
        FuseShape(s, h, pr, pr);
        Fuse(pr, h, pr, L, s.fl);
        h := pr;
      }
      ghost var m1 := mem[..];
      assert t.fl[1..] == if h == h0 then s.fl else Remove(s.fl, pr);
      Finish(h, t);
      KeptTrans(old(mem[..]), m1, mem[..], Live(L), Live(L));
    }

    method MyFree(p: int)
      requires Valid()
      requires p == NULL || IsLive(s, p)
      modifies mem, `free_head, `s
      ensures Valid()
      ensures s == if p == NULL then old(s) else Free(old(s), p)
      ensures Kept(old(mem[..]), mem[..], Live(old(s.chunks)) - {p - HDR_SZ})
    {
      if p == NULL {
        return;
      }
      var h := p - HDR_SZ;
      MarkPending(s, h);
      MergeNextPending(Mark(s, h), h);
      ghost var m0, live := mem[..], Live(s.chunks) - {h};
      MarkFree(h);
      ghost var m1 := mem[..];
      CoalesceNext(h);
      ghost var m2 := mem[..];
      KeptTrans(m0, m1, m2, live, live);
      CoalescePrev(h);
      KeptTrans(m0, m2, mem[..], live, live);
    }

    /** One call by the program. */
    method Call(op: Op) returns (p: int)
      requires Valid() && Legal(s, op)
      modifies mem, `free_head, `s
      ensures Valid() && s == Step(old(s), op) && p == Answer(old(s), op)
      ensures Kept(old(mem[..]), mem[..], Untouched(Live(old(s.chunks)), [op]))
    {
      ghost var m0, live, all := mem[..], Untouched(Live(s.chunks), [op]), Live(s.chunks);
      UntouchedOne(all, op);
      match op {
        case Alloc(req) =>
          p := MyMalloc(req);
          KeptSome(m0, mem[..], live, all);
        case Release(q) =>
          MyFree(q);
          p := NULL;
          KeptSome(m0, mem[..], live, all - {q - HDR_SZ});
      }
    }

    /** Any run of calls and what they return: no word of a chunk that it does not free changes,
        from first call to last. */
    method Run(ops: seq<Op>) returns (ps: seq<int>)
      requires Valid() && LegalRun(s, ops)
      modifies mem, `free_head, `s
      ensures Valid() && s == RunOps(old(s), ops) && ps == Answers(old(s), ops)
      ensures Kept(old(mem[..]), mem[..], Untouched(Live(old(s.chunks)), ops))
      decreases |ops|
    {
      if ops == [] {
        return [];
      }
      ghost var m0, s0, live := mem[..], s, Untouched(Live(s.chunks), ops);
      UntouchedStep(s, ops);
      StepInv(s, ops[0]);
      var p := Call(ops[0]);
      ghost var m1 := mem[..];
      KeptSome(m0, m1, live, Untouched(Live(s0.chunks), [ops[0]]));
      ghost var rest := Untouched(Live(s.chunks), ops[1..]);
      ps := Run(ops[1..]);
      ps := [p] + ps;
      KeptTrans(m0, m1, mem[..], live, rest);
    }

    /** The program writing a word of a live payload (`memset` in `main`): the allocator's own
        data never depends on it. */
    method Store(p: int, off: nat, v: int)
      requires Valid() && IsLive(s, p) && off % 8 == 0 && p + off < End(s.chunks, p - HDR_SZ) - FTR_SZ
      modifies mem
      ensures Valid() && mem[..] == old(mem[..])[p + off := v]
      ensures Kept(old(mem[..]), mem[..], Live(s.chunks) - {p - HDR_SZ})
    {
      ghost var h := p - HDR_SZ;
      mem[p + off] := v;
      assert mem[..] == old(mem[..])[p + off := v];
      TiledShape(s.cap, s.chunks, s.fl);
      PayloadTags(old(mem[..]), mem[..], s.chunks, h);
      PayloadLinks(old(mem[..]), mem[..], free_head, s.chunks, s.fl, h);
    }
  }
}
