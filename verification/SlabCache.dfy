/** The slab cache with its records and memory: slab headers linked on two lists, and the first
    word of every free object linking it to the next. `mem` holds the 8-byte words of objects by
    address. */
module SlabCache {
  import opened Arithmetic
  import opened Lists
  import S = SlabState

  class SlabRecord {
    var next_all: SlabRecord?
    var next_partial: SlabRecord?
    var free: int
    var in_use: int
    var capacity: int
    var base: int
    var end: int

    constructor ()
      ensures next_all == null && next_partial == null
    {
      next_all, next_partial := null, null;
    }
  }

  ghost predicate Node(mem: map<int, int>, nodes: seq<int>, k: int)
    requires 0 <= k < |nodes|
  {
    nodes[k] in mem && mem[nodes[k]] == Nth(nodes, k + 1)
  }

  /** From the head of `nodes`, the words in memory run through it. */
  ghost predicate Chain(mem: map<int, int>, nodes: seq<int>) {
    forall k :: 0 <= k < |nodes| ==> Node(mem, nodes, k)
  }

  ghost predicate Distinct(objs: seq<SlabRecord>) {
    forall i, j :: 0 <= i < j < |objs| ==> objs[i] != objs[j]
  }

  /** The record numbered i, null for no such slab. */
  ghost function At(objs: seq<SlabRecord>, i: int): SlabRecord? {
    if 0 <= i < |objs| then objs[i] else null
  }

  ghost predicate Fields(o: SlabRecord, c: S.Cache, s: S.Slab)
    reads o`free, o`in_use, o`capacity, o`base, o`end
  {
    && o.base == s.base && o.end == s.base + c.cap * c.sz
    && o.capacity == c.cap && o.in_use == c.cap - |s.nodes|
    && o.free == Nth(s.nodes, 0)
  }

  ghost predicate AllNode(objs: seq<SlabRecord>, i: int)
    requires 0 <= i < |objs|
    reads objs`next_all
  {
    objs[i].next_all == At(objs, i - 1)
  }

  /** Newer slabs come first on `all_slabs`. */
  ghost predicate AllLinked(head: SlabRecord?, objs: seq<SlabRecord>)
    reads objs`next_all
  {
    head == At(objs, |objs| - 1) && forall i :: 0 <= i < |objs| ==> AllNode(objs, i)
  }

  ghost predicate PartNode(objs: seq<SlabRecord>, part: seq<int>, k: int)
    requires 0 <= k < |part|
    reads objs`next_partial
  {
    0 <= part[k] < |objs| && objs[part[k]].next_partial == At(objs, Nth(part, k + 1))
  }

  ghost predicate PartLinked(head: SlabRecord?, objs: seq<SlabRecord>, part: seq<int>)
    reads objs`next_partial
  {
    head == At(objs, Nth(part, 0)) && forall k :: 0 <= k < |part| ==> PartNode(objs, part, k)
  }

  ghost predicate Records(objs: seq<SlabRecord>, c: S.Cache)
    reads objs`free, objs`in_use, objs`capacity, objs`base, objs`end
  {
    && |objs| == |c.slabs|
    && forall i :: 0 <= i < |objs| ==> Fields(objs[i], c, c.slabs[i])
  }

  ghost predicate RecordsBut(objs: seq<SlabRecord>, c: S.Cache, i: int)
    reads objs`free, objs`in_use, objs`capacity, objs`base, objs`end
  {
    && |objs| == |c.slabs|
    && forall j :: 0 <= j < |objs| && j != i ==> Fields(objs[j], c, c.slabs[j])
  }

  lemma RecordsPlus(objs: seq<SlabRecord>, c: S.Cache, d: S.Cache, i: int)
    requires RecordsBut(objs, c, i) && 0 <= i < |objs| && |d.slabs| == |c.slabs| && d.sz == c.sz && d.cap == c.cap
    requires forall j :: 0 <= j < |objs| && j != i ==> d.slabs[j] == c.slabs[j]
    requires Fields(objs[i], d, d.slabs[i])
    ensures Records(objs, d)
  {
  }

  lemma PushAll(head: SlabRecord?, objs: seq<SlabRecord>, s: SlabRecord)
    requires AllLinked(head, objs) && s.next_all == head
    ensures AllLinked(s, objs + [s])
  {
    forall i | 0 <= i < |objs| + 1
      ensures AllNode(objs + [s], i)
    {
      if i < |objs| { assert AllNode(objs, i); }
    }
  }

  lemma PushPart(head: SlabRecord?, objs: seq<SlabRecord>, part: seq<int>, s: SlabRecord)
    requires PartLinked(head, objs, part) && s.next_partial == head
    ensures PartLinked(s, objs + [s], [|objs|] + part)
  {
    var part' := [|objs|] + part;
    forall k | 0 <= k < |part'|
      ensures PartNode(objs + [s], part', k)
    {
      if k > 0 { assert PartNode(objs, part, k - 1); }
      if k < |part| { assert PartNode(objs, part, k); }
    }
  }

  lemma PushRecords(objs: seq<SlabRecord>, c: S.Cache, region: int, s: SlabRecord)
    requires Records(objs, c) && Fields(s, c, S.Slab(region + S.HEADER, S.Carved(c, region + S.HEADER, c.cap)))
    ensures Records(objs + [s], S.NewSlab(c, region))
  {
  }

  /** The list without its head. */
  lemma PartTail(head: SlabRecord?, objs: seq<SlabRecord>, part: seq<int>)
    requires PartLinked(head, objs, part) && part != [] && 0 <= part[0] < |objs|
    ensures head == objs[part[0]] && PartLinked(objs[part[0]].next_partial, objs, part[1..])
  {
    assert PartNode(objs, part, 0);
    forall k | 0 <= k < |part| - 1
      ensures PartNode(objs, part[1..], k)
    {
      assert PartNode(objs, part, k + 1);
    }
  }

  ghost predicate Chains(mem: map<int, int>, slabs: seq<S.Slab>) {
    forall i :: 0 <= i < |slabs| ==> Chain(mem, slabs[i].nodes)
  }

  class Cache {
    var all_slabs: SlabRecord?
    var partial: SlabRecord?
    var obj_sz: nat
    var objs_per_slab: nat
    var mem: map<int, int>
    ghost var c: S.Cache
    ghost var objs: seq<SlabRecord>

    /** The records and the memory agree with c. */
    ghost predicate Linked()
      reads this, objs
    {
      && obj_sz == c.sz && objs_per_slab == c.cap
      && Distinct(objs) && Records(objs, c)
      && AllLinked(all_slabs, objs) && PartLinked(partial, objs, c.part)
      && Chains(mem, c.slabs)
    }

    ghost predicate Valid()
      reads this, objs
    {
      S.Inv(c) && Linked()
    }

    /** `cache_init`, whatever the size; objects too large for a slab leave none to a slab. */
    constructor (size: nat)
      ensures Valid() && objs == [] && c == S.Init(S.ObjSize(size))
    {
      var sz := if size < 8 then 8 else size;
      AlignUpBounds(sz);
      sz := AlignUp(sz);
      obj_sz := sz;
      all_slabs := null;
      partial := null;
      objs_per_slab := S.PerSlab(sz);
      mem := map[];
      c := S.Init(sz);
      objs := [];
      new;
      S.InitInv(sz);
    }

    /** The records and the memory have come to agree with d. */
    ghost method Sync(d: S.Cache)
      requires obj_sz == d.sz && objs_per_slab == d.cap && Distinct(objs) && Records(objs, d)
      requires AllLinked(all_slabs, objs) && PartLinked(partial, objs, d.part) && Chains(mem, d.slabs)
      modifies `c
      ensures Linked() && c == d
    {
      c := d;
    }

    /** The carving loop of `new_slab`: links the objects at `base` into a list ending in its head. */
    method Carve(base: int) returns (head: int)
      requires S.Geometry(c) && obj_sz == c.sz && objs_per_slab == c.cap && base >= 0
      modifies `mem
      ensures head == Nth(S.Carved(c, base, c.cap), 0)
      ensures Chain(mem, S.Carved(c, base, c.cap))
      ensures forall a :: a in old(mem) && !S.OnStride(c.sz, c.cap, base, a) ==> a in mem && mem[a] == old(mem)[a]
    {
      head := NULL;
      var i := 0;
      while i < objs_per_slab
        invariant 0 <= i <= objs_per_slab == c.cap && obj_sz == c.sz
        invariant head == Nth(S.Carved(c, base, i), 0) && Chain(mem, S.Carved(c, base, i))
        invariant forall a :: a in old(mem) && !S.OnStride(c.sz, i, base, a) ==> a in mem && mem[a] == old(mem)[a]
      {
        var n := base + i * obj_sz;
        S.CarvedIs(c, base, i);
        S.CarvedIs(c, base, i + 1);
        CarveStep(mem, S.Carved(c, base, i), n, head);
        ghost var m0 := mem;
        mem := mem[n := head];
        head := n;
        forall a | a in old(mem) && !S.OnStride(c.sz, i + 1, base, a)
          ensures a in mem && mem[a] == old(mem)[a]
        {
          assert n == S.Obj(c.sz, base, i);
          assert forall k :: 0 <= k < i ==> a != S.Obj(c.sz, base, k);
        }
        i := i + 1;
      }
    }

    /** Filling in the header of a new slab and carving its objects. */
    method MakeRecord(region: int) returns (s: SlabRecord)
      requires S.Geometry(c) && obj_sz == c.sz && objs_per_slab == c.cap && region >= 0
      modifies `mem
      ensures fresh(s) && Fields(s, c, S.Slab(region + S.HEADER, S.Carved(c, region + S.HEADER, c.cap)))
      ensures Chain(mem, S.Carved(c, region + S.HEADER, c.cap))
      ensures forall a :: a in old(mem) && !S.OnStride(c.sz, c.cap, region + S.HEADER, a) ==>
                a in mem && mem[a] == old(mem)[a]
    {
      s := new SlabRecord();
      s.base := region + S.HEADER;
      s.end := s.base + objs_per_slab * obj_sz;
      s.in_use := 0;
      s.capacity := objs_per_slab;
      s.free := Carve(s.base);
    }

    /** Linking a record at the head of both lists. */
    method Push(s: SlabRecord, ghost part: seq<int>)
      requires AllLinked(all_slabs, objs) && PartLinked(partial, objs, part) && s !in objs
      modifies s`next_all, s`next_partial, `all_slabs, `partial
      ensures AllLinked(all_slabs, objs + [s]) && PartLinked(partial, objs + [s], [|objs|] + part)
    {
      s.next_all := all_slabs;
      s.next_partial := partial;
      PushAll(all_slabs, objs, s);
      PushPart(partial, objs, part, s);
      all_slabs := s;
      partial := s;
    }

    method AddRecord(s: SlabRecord, ghost region: int)
      requires obj_sz == c.sz && objs_per_slab == c.cap && Distinct(objs) && Records(objs, c)
      requires AllLinked(all_slabs, objs) && PartLinked(partial, objs, c.part)
      requires s !in objs && Fields(s, c, S.Slab(region + S.HEADER, S.Carved(c, region + S.HEADER, c.cap)))
      requires Chains(mem, S.NewSlab(c, region).slabs)
      modifies s`next_all, s`next_partial, `all_slabs, `partial, `objs, `c
      ensures Linked() && c == S.NewSlab(old(c), region) && objs == old(objs) + [s]
    {
      Push(s, c.part);
      PushRecords(objs, c, region, s);
      objs := objs + [s];
      Sync(S.NewSlab(c, region));
    }

    /** `new_slab`, with the region mmap grants, or NULL when it fails. */
    method NewSlab(region: int) returns (s: SlabRecord?)
      requires Valid() && S.Granted(c, region)
      modifies this
      ensures Valid()
      ensures region == NULL ==> s == null && c == old(c) && objs == old(objs) && mem == old(mem)
      ensures region != NULL ==> s != null && fresh(s) && c == S.NewSlab(old(c), region) && objs == old(objs) + [s]
      ensures forall a :: a in old(mem) && (region == NULL || !S.OnStride(c.sz, c.cap, region + S.HEADER, a)) ==>
                a in mem && mem[a] == old(mem)[a]
    {
      if region == NULL {
        return null;
      }
      ghost var m0 := mem;
      S.NewSlabInv(c, region);
      s := MakeRecord(region);
      NewChains(c, region, m0, mem);
      AddRecord(s, region);
    }

    /** `n = s->free; s->free = n->next; s->in_use++` */
    method Unchain(s: SlabRecord, ghost i: int) returns (n: int)
      requires s.free in mem && Distinct(objs) && Records(objs, c) && 0 <= i < |objs| && s == objs[i]
      modifies s`free, s`in_use
      ensures RecordsBut(objs, c, i)
      ensures n == old(s.free) && s.free == mem[n] && s.in_use == old(s.in_use) + 1
    {
      n := s.free;
      s.free := mem[n];
      s.in_use := s.in_use + 1;
    }

    /** The second half of `cache_alloc`: take the first free object of the first partial slab. */
    method TakeOne() returns (n: int)
      requires Linked() && c.part != [] && 0 <= c.part[0] < |c.slabs| && c.slabs[c.part[0]].nodes != []
      requires forall x :: x in c.slabs[c.part[0]].nodes ==> x >= 0
      modifies this, objs
      ensures Linked() && objs == old(objs) && mem == old(mem)
      ensures (c, n) == S.Pop(old(c))
    {
      ghost var i := c.part[0];
      HeadChain(mem, c.slabs[i].nodes);
      PartTail(partial, objs, c.part);
      var s := partial;
      assert Fields(s, c, c.slabs[i]);
      n := Unchain(s, i);
      assert AllLinked(all_slabs, objs) && PartLinked(s.next_partial, objs, c.part[1..]);
      if s.free == NULL {
        partial := s.next_partial;
      }
      RecordsPlus(objs, c, S.Pop(c).0, i);
      Sync(S.Pop(c).0);
    }

    method CacheAlloc(region: int) returns (x: int)
      requires Valid() && S.Granted(c, region)
      modifies this, objs
      ensures Valid()
      ensures (c, x) == S.Alloc(old(c), region)
      ensures forall a :: a in old(mem) && (region == NULL || !S.OnStride(c.sz, c.cap, region + S.HEADER, a)) ==>
                a in mem && mem[a] == old(mem)[a]
    {
      S.AllocPlan(c, region);
      ghost var d := S.Refilled(c, region);
      if partial == null {
        var ns := NewSlab(region);
        if ns == null {
          return NULL;
        }
      }
      assert c == d;
      x := TakeOne();
    }

    /** The scan of `cache_free` over `all_slabs`. */
    method FindOwner(p: int) returns (s: SlabRecord?, ghost i: int)
      requires Linked()
      ensures s == null ==> forall j :: 0 <= j < |objs| ==> !Spans(c, j, p)
      ensures s != null ==> 0 <= i < |objs| && s == objs[i] && Spans(c, i, p)
    {
      s := all_slabs;
      i := |objs| - 1;
      while s != null
        invariant -1 <= i < |objs| && s == At(objs, i)
        invariant forall j :: i < j < |objs| ==> !Spans(c, j, p)
        decreases i
      {
        assert AllNode(objs, i) && Fields(s, c, c.slabs[i]);
        if s.base <= p < s.end {
          return;
        }
        s := s.next_all;
        i := i - 1;
      }
    }

    /** `n->next = s->free; s->free = n; s->in_use--` */
    method Rechain(s: SlabRecord, p: int, ghost i: int)
      requires Distinct(objs) && Records(objs, c) && 0 <= i < |objs| && s == objs[i]
      modifies s`free, s`in_use, `mem
      ensures RecordsBut(objs, c, i)
      ensures mem == old(mem)[p := old(s.free)] && s.free == p && s.in_use == old(s.in_use) - 1
    {
      mem := mem[p := s.free];
      s.free := p;
      s.in_use := s.in_use - 1;
    }

    /** Putting a slab that was full back on the partial list. */
    method Relist(s: SlabRecord, ghost i: int, ghost part: seq<int>)
      requires Distinct(objs) && PartLinked(partial, objs, part) && i !in part && 0 <= i < |objs| && s == objs[i]
      modifies s`next_partial, `partial
      ensures PartLinked(partial, objs, [i] + part)
    {
      s.next_partial := partial;
      partial := s;
      ghost var part' := [i] + part;
      forall k | 0 <= k < |part'|
        ensures PartNode(objs, part', k)
      {
        if k > 0 { assert old(PartNode(objs, part, k - 1)) && part[k - 1] in part; }
      }
    }

    /** `cache_free` once the owner is known. */
    method GiveBack(s: SlabRecord, p: int, ghost i: int)
      requires Linked() && 0 <= i < |objs| && s == objs[i] && p >= 0
      requires i in c.part <==> c.slabs[i].nodes != []
      requires forall x :: x in c.slabs[i].nodes ==> x >= 0
      requires Chains(mem[p := s.free], S.Free(c, i, p).slabs)
      modifies this, s
      ensures Linked() && objs == old(objs) && c == S.Free(old(c), i, p) && mem == old(mem)[p := old(s.free)]
    {
      ghost var nodes, part, d := c.slabs[i].nodes, c.part, S.Free(c, i, p);
      assert Fields(s, c, c.slabs[i]);
      assert nodes != [] ==> nodes[0] in nodes;
      var was_full := s.free == NULL;
      Rechain(s, p, i);
      assert AllLinked(all_slabs, objs) && PartLinked(partial, objs, part);
      RecordsPlus(objs, c, d, i);
      if was_full {
        Relist(s, i, part);
      }
      Sync(d);
    }

    /** `cache_free`: p is a live object, or an address in no slab, which the code reports and
        ignores. */
    method CacheFree(p: int)
      requires Valid()
      requires p in c.live || forall j :: 0 <= j < |c.slabs| ==> !Spans(c, j, p)
      modifies this, objs
      ensures Valid() && objs == old(objs)
      ensures p in old(c).live ==> exists i :: S.IsObj(old(c), i, p) && c == S.Free(old(c), i, p)
      ensures p !in old(c).live ==> c == old(c)
      ensures forall a :: a in old(mem) && a != p ==> a in mem && mem[a] == old(mem)[a]
    {
      var s, i := FindOwner(p);
      OwnerFound(c, p, i, s != null);
      if s == null {
        return;
      }
      FreePlan(c, i, p, mem, s.free);
      assert Fields(s, c, c.slabs[i]);
      GiveBack(s, p, i);
    }

    /** The program writing a word of an object it owns: the cache's own data never depends on
        it. */
    method Store(x: int, off: nat, v: int)
      requires Valid() && x in c.live && off % 8 == 0 && off < obj_sz
      modifies `mem
      ensures Valid() && mem == old(mem)[x + off := v]
    {
      LiveChains(c, x, off, mem, v);
      mem := mem[x + off := v];
    }
  }

  /** `base <= p < end` for slab j. */
  ghost predicate Spans(c: S.Cache, j: int, p: int) {
    0 <= j < |c.slabs| && c.slabs[j].base <= p < c.slabs[j].base + c.cap * c.sz
  }

  /** The scan succeeds exactly on live pointers, and finds their slab. */
  lemma OwnerFound(c: S.Cache, p: int, i: int, found: bool)
    requires S.Inv(c) && (p in c.live || forall j :: 0 <= j < |c.slabs| ==> !Spans(c, j, p))
    requires found ==> Spans(c, i, p)
    requires !found ==> forall j :: 0 <= j < |c.slabs| ==> !Spans(c, j, p)
    ensures found <==> p in c.live
    ensures found ==> S.IsObj(c, i, p) && p >= 0
  {
    if p in c.live {
      S.LiveIsObj(c, p);
      var j :| S.IsObj(c, j, p);
      S.ObjInSlab(c, j, p);
      assert Spans(c, j, p) && S.NodesOk(c, j);
      if found { S.OneOwner(c, i, j, p); }
    }
  }

  lemma FreePlan(c: S.Cache, i: int, p: int, mem: map<int, int>, free: int)
    requires S.Inv(c) && p in c.live && S.IsObj(c, i, p) && Chains(mem, c.slabs) && free == Nth(c.slabs[i].nodes, 0)
    ensures S.Inv(S.Free(c, i, p))
    ensures i in c.part <==> c.slabs[i].nodes != []
    ensures forall x :: x in c.slabs[i].nodes ==> x >= 0
    ensures Chains(mem[p := free], S.Free(c, i, p).slabs)
  {
    S.FreeInv(c, i, p);
    S.OnlySlab(c, i, p);
    LiveChains(c, p, 0, mem, free);
    CarveStep(mem, c.slabs[i].nodes, p, free);
    assert S.NodesOk(c, i);
    forall x | x in c.slabs[i].nodes ensures x >= 0 { S.ObjInSlab(c, i, x); }
  }

  /** A live object is on no free list, so its words belong to the program. */
  lemma LiveChains(c: S.Cache, x: int, off: nat, mem: map<int, int>, v: int)
    requires S.Inv(c) && x in c.live && off < c.sz && Chains(mem, c.slabs)
    ensures Chains(mem[x + off := v], c.slabs)
  {
    var mem' := mem[x + off := v];
    S.LiveIsObj(c, x);
    var i :| S.IsObj(c, i, x);
    forall j | 0 <= j < |c.slabs|
      ensures Chain(mem', c.slabs[j].nodes)
    {
      var nodes := c.slabs[j].nodes;
      assert S.NodesOk(c, j) && Chain(mem, nodes);
      if x + off in nodes {
        S.OnlySlab(c, j, x + off);
        if off > 0 { S.ObjectsApart(c, i, x, j, x + off); }
      }
      forall k | 0 <= k < |nodes|
        ensures Node(mem', nodes, k)
      {
        assert Node(mem, nodes, k) && nodes[k] in nodes;
      }
    }
  }

  /** The words of the first node of a chain. */
  lemma HeadChain(mem: map<int, int>, nodes: seq<int>)
    requires Chain(mem, nodes) && nodes != [] && forall x :: x in nodes ==> x >= 0
    ensures nodes[0] in mem && mem[nodes[0]] == Nth(nodes[1..], 0) && Chain(mem, nodes[1..])
    ensures mem[nodes[0]] == NULL <==> nodes[1..] == []
  {
    assert Node(mem, nodes, 0);
    assert |nodes| > 1 ==> nodes[1] in nodes;
    forall k | 0 <= k < |nodes| - 1
      ensures Node(mem, nodes[1..], k)
    {
      assert Node(mem, nodes, k + 1);
    }
  }

  lemma NewChains(c: S.Cache, region: int, m0: map<int, int>, m1: map<int, int>)
    requires S.Inv(c) && c.cap > 0 && S.Fresh(c, region) && Chains(m0, c.slabs)
    requires Chain(m1, S.Carved(c, region + S.HEADER, c.cap))
    requires forall a :: a in m0 && !S.OnStride(c.sz, c.cap, region + S.HEADER, a) ==> a in m1 && m1[a] == m0[a]
    ensures Chains(m1, S.NewSlab(c, region).slabs)
  {
    var d := S.NewSlab(c, region);
    var n := |c.slabs|;
    forall i | 0 <= i < |d.slabs|
      ensures Chain(m1, d.slabs[i].nodes)
    {
      if i < n {
        var nodes := c.slabs[i].nodes;
        assert S.NodesOk(c, i) && Chain(m0, nodes);
        forall k | 0 <= k < |nodes|
          ensures Node(m1, nodes, k)
        {
          assert Node(m0, nodes, k) && nodes[k] in nodes;
          S.NotInFresh(c, region, i, nodes[k]);
        }
      }
    }
  }

  lemma CarveStep(mem: map<int, int>, nodes: seq<int>, n: int, head: int)
    requires Chain(mem, nodes) && n !in nodes && head == Nth(nodes, 0)
    ensures Chain(mem[n := head], [n] + nodes)
  {
    var mem', nodes' := mem[n := head], [n] + nodes;
    forall k | 0 <= k < |nodes'|
      ensures Node(mem', nodes', k)
    {
      if k > 0 { assert Node(mem, nodes, k - 1) && nodes[k - 1] in nodes; }
    }
  }
}
