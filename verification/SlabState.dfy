/** The slab cache as its slabs and their free objects: what `cache_alloc` and `cache_free` do to
    them, and how many slabs a run needs. */
module SlabState {
  import opened Arithmetic
  import opened Lists

  const SLAB_BYTES := 32768
  /** The rounded size of the slab header: five pointers and two ints. */
  const HEADER := 48

  /** A slab: the address of its first object, and its free list, head first. */
  datatype Slab = Slab(base: int, nodes: seq<int>)

  /** A cache of objects of `sz` bytes, `cap` to a slab. Slabs are numbered in the order they were
      made; `part` is the partial list, head first; `live` holds the objects handed out. */
  datatype Cache = Cache(sz: nat, cap: nat, slabs: seq<Slab>, part: seq<int>, live: set<int>)

  function Obj(sz: nat, base: int, k: nat): int { base + k * sz }

  ghost predicate OnStride(sz: nat, cap: nat, base: int, x: int) {
    exists k :: 0 <= k < cap && x == Obj(sz, base, k)
  }

  /** x is one of the objects of slab i. */
  ghost predicate IsObj(c: Cache, i: int, x: int) {
    0 <= i < |c.slabs| && OnStride(c.sz, c.cap, c.slabs[i].base, x)
  }

  ghost predicate Geometry(c: Cache) {
    c.sz > 0 && c.cap * c.sz + HEADER <= SLAB_BYTES
  }

  /** The regions mmap granted do not overlap. */
  ghost predicate Apart(c: Cache) {
    forall i, j :: 0 <= i < j < |c.slabs| ==>
      c.slabs[i].base + SLAB_BYTES <= c.slabs[j].base || c.slabs[j].base + SLAB_BYTES <= c.slabs[i].base
  }

  /** A slab's free nodes are distinct objects of that slab. */
  ghost predicate NodesOk(c: Cache, i: int)
    requires 0 <= i < |c.slabs|
  {
    && c.slabs[i].base >= 0
    && NoDup(c.slabs[i].nodes)
    && forall x :: x in c.slabs[i].nodes ==> IsObj(c, i, x)
  }

  /** The partial list holds exactly the slabs with a free object, once each. */
  ghost predicate PartOk(c: Cache) {
    NoDup(c.part) && forall i :: i in c.part <==> 0 <= i < |c.slabs| && c.slabs[i].nodes != []
  }

  ghost predicate Busy(c: Cache, i: int, x: int) {
    IsObj(c, i, x) && x !in c.slabs[i].nodes
  }

  ghost predicate InSomeSlab(c: Cache, x: int) { exists i :: Busy(c, i, x) }

  /** An object is live exactly when it belongs to a slab and is not on its free list. */
  ghost predicate LiveOk(c: Cache) {
    forall x :: x in c.live <==> InSomeSlab(c, x)
  }

  /** Objects in use, over all slabs. */
  function InUse(cap: nat, slabs: seq<Slab>): int {
    if slabs == [] then 0 else cap - |slabs[0].nodes| + InUse(cap, slabs[1..])
  }

  ghost predicate Inv(c: Cache) {
    && Geometry(c) && Apart(c) && PartOk(c) && LiveOk(c)
    && (forall i :: 0 <= i < |c.slabs| ==> NodesOk(c, i))
    && |c.live| == InUse(c.cap, c.slabs)
  }

  // ---------- The operations ----------

  function ObjSize(obj_sz: nat): nat { AlignUp(if obj_sz < 8 then 8 else obj_sz) }

  /** `objs_per_slab`. */
  function PerSlab(sz: nat): nat
    requires sz > 0
  {
    (SLAB_BYTES - HEADER) / sz
  }

  function Init(sz: nat): Cache
    requires sz > 0
  {
    Cache(sz, PerSlab(sz), [], [], {})
  }

  /** The free list after carving n objects: the last one carved is its head. */
  function Carved(c: Cache, base: int, n: nat): (r: seq<int>)
    ensures |r| == n
  {
    if n == 0 then [] else [Obj(c.sz, base, n - 1)] + Carved(c, base, n - 1)
  }

  /** mmap granted a region: it overlaps no other. */
  ghost predicate Fresh(c: Cache, region: int) {
    && region >= 0
    && forall i :: 0 <= i < |c.slabs| ==>
         region + HEADER + SLAB_BYTES <= c.slabs[i].base || c.slabs[i].base + SLAB_BYTES <= region + HEADER
  }

  /** What mmap would answer: nothing, or a fresh region. A slab must hold an object, or the code
      would go on to take one from an empty list. */
  ghost predicate Granted(c: Cache, region: int) {
    region != NULL ==> c.cap > 0 && Fresh(c, region)
  }

  function NewSlab(c: Cache, region: int): Cache {
    var base := region + HEADER;
    c.(slabs := c.slabs + [Slab(base, Carved(c, base, c.cap))], part := [|c.slabs|] + c.part)
  }

  /** Take the head of the free list of the first partial slab. */
  function Pop(c: Cache): (Cache, int)
    requires c.part != [] && 0 <= c.part[0] < |c.slabs| && c.slabs[c.part[0]].nodes != []
  {
    var i := c.part[0];
    var x, rest := c.slabs[i].nodes[0], c.slabs[i].nodes[1..];
    (c.(slabs := c.slabs[i := c.slabs[i].(nodes := rest)], part := if rest == [] then c.part[1..] else c.part,
        live := c.live + {x}), x)
  }

  /** `cache_alloc`, with the region mmap would grant, or NULL if it would fail. */
  ghost function Alloc(c: Cache, region: int): (Cache, int)
    requires Inv(c) && Granted(c, region)
  {
    if c.part == [] then
      if region == NULL then (c, NULL) else (NewSlabInv(c, region); Pop(NewSlab(c, region)))
    else (assert c.part[0] in c.part; Pop(c))
  }

  /** `cache_free` of object x of slab i. */
  function Free(c: Cache, i: int, x: int): Cache
    requires 0 <= i < |c.slabs|
  {
    var nodes := c.slabs[i].nodes;
    c.(slabs := c.slabs[i := c.slabs[i].(nodes := [x] + nodes)], part := if nodes == [] then [i] + c.part else c.part,
       live := c.live - {x})
  }

  /** Objects are rounded up to the next 16 bytes that hold them and a free-list pointer. */
  lemma ObjSizeIs(obj_sz: nat)
    ensures var sz, least := ObjSize(obj_sz), if obj_sz < 8 then 8 else obj_sz;
      sz % 16 == 0 && least <= sz < least + 16
  {
    AlignUpBounds(if obj_sz < 8 then 8 else obj_sz);
  }

  /** `objs_per_slab` is the most objects that fit behind the header. */
  lemma PerSlabMost(sz: nat)
    requires sz > 0
    ensures PerSlab(sz) * sz + HEADER <= SLAB_BYTES < (PerSlab(sz) + 1) * sz + HEADER
  {
    var n := PerSlab(sz);
    assert (n + 1) * sz == n * sz + sz;
  }

  // ---------- Objects ----------

  /** An object lies whole between the slab's `base` and `end`. */
  lemma ObjInSlab(c: Cache, i: int, x: int)
    requires Geometry(c) && IsObj(c, i, x)
    ensures c.slabs[i].base <= x && x + c.sz <= c.slabs[i].base + c.cap * c.sz
  {
    var k :| 0 <= k < c.cap && x == Obj(c.sz, c.slabs[i].base, k);
    MulLe(k + 1, c.cap, c.sz);
    assert (k + 1) * c.sz == k * c.sz + c.sz;
  }

  /** `base <= p < end` holds of one slab only. */
  lemma OneOwner(c: Cache, i: int, j: int, x: int)
    requires Geometry(c) && Apart(c) && 0 <= i < |c.slabs| && 0 <= j < |c.slabs|
    requires c.slabs[i].base <= x < c.slabs[i].base + c.cap * c.sz
    requires c.slabs[j].base <= x < c.slabs[j].base + c.cap * c.sz
    ensures i == j
  {
  }

  /** An object of a slab lies outside a region mmap grants later. */
  lemma NotInFresh(c: Cache, region: int, i: int, x: int)
    requires Geometry(c) && Fresh(c, region) && IsObj(c, i, x)
    ensures !OnStride(c.sz, c.cap, region + HEADER, x)
  {
    ObjInSlab(c, i, x);
    if OnStride(c.sz, c.cap, region + HEADER, x) {
      var d := NewSlab(c, region);
      assert IsObj(d, |c.slabs|, x);
      ObjInSlab(d, |c.slabs|, x);
    }
  }

  /** Two different objects of the cache do not overlap. */
  lemma ObjectsApart(c: Cache, i: int, x: int, j: int, y: int)
    requires Geometry(c) && Apart(c) && IsObj(c, i, x) && IsObj(c, j, y) && x < y
    ensures x + c.sz <= y
  {
    ObjInSlab(c, i, x);
    ObjInSlab(c, j, y);
    if i == j {
      var k :| 0 <= k < c.cap && x == Obj(c.sz, c.slabs[i].base, k);
      var l :| 0 <= l < c.cap && y == Obj(c.sz, c.slabs[i].base, l);
      if l <= k { MulLe(l, k, c.sz); }
      MulLe(k + 1, l, c.sz);
      assert (k + 1) * c.sz == k * c.sz + c.sz;
    }
  }

  /** No object overlaps the header at the start of a slab's region, its own or another's. */
  lemma HeadersApart(c: Cache, i: int, x: int, j: int)
    requires Geometry(c) && Apart(c) && IsObj(c, i, x) && 0 <= j < |c.slabs|
    ensures var base := c.slabs[j].base; x + c.sz <= base - HEADER || base <= x
  {
    ObjInSlab(c, i, x);
  }

  // ---------- Every operation keeps the invariant ----------

  lemma InitInv(sz: nat)
    requires sz > 0
    ensures Inv(Init(sz))
  {
  }

  lemma {:induction false} CarvedIs(c: Cache, base: int, n: nat)
    requires c.sz > 0 && base >= 0
    ensures NoDup(Carved(c, base, n))
    ensures forall x :: x in Carved(c, base, n) <==> OnStride(c.sz, n, base, x)
    ensures forall x :: x in Carved(c, base, n) ==> 0 <= x < base + n * c.sz
  {
    if n > 0 {
      CarvedIs(c, base, n - 1);
      NoDupCons(Obj(c.sz, base, n - 1), Carved(c, base, n - 1));
      assert n * c.sz == (n - 1) * c.sz + c.sz;
    }
  }

  lemma {:induction false} InUseUpdate(cap: nat, slabs: seq<Slab>, i: nat, s: Slab)
    requires i < |slabs|
    ensures InUse(cap, slabs[i := s]) == InUse(cap, slabs) + |slabs[i].nodes| - |s.nodes|
  {
    if i == 0 {
      assert slabs[0 := s][1..] == slabs[1..];
    } else {
      assert slabs[i := s][1..] == slabs[1..][i - 1 := s];
      InUseUpdate(cap, slabs[1..], i - 1, s);
    }
  }

  lemma {:induction false} InUseSnoc(cap: nat, slabs: seq<Slab>, s: Slab)
    ensures InUse(cap, slabs + [s]) == InUse(cap, slabs) + cap - |s.nodes|
  {
    if slabs == [] {
      assert [s][1..] == [];
    } else {
      assert (slabs + [s])[1..] == slabs[1..] + [s];
      InUseSnoc(cap, slabs[1..], s);
    }
  }

  lemma NewSlabInv(c: Cache, region: int)
    requires Inv(c) && c.cap > 0 && Fresh(c, region)
    ensures Inv(NewSlab(c, region))
    ensures var n := |c.slabs|; NewSlab(c, region).part[0] == n && NewSlab(c, region).slabs[n].nodes != []
  {
    var d, n, base := NewSlab(c, region), |c.slabs|, region + HEADER;
    CarvedIs(c, base, c.cap);
    InUseSnoc(c.cap, c.slabs, d.slabs[n]);
    forall i, x
      ensures 0 <= i < n ==> (IsObj(d, i, x) <==> IsObj(c, i, x)) && (Busy(d, i, x) <==> Busy(c, i, x))
      ensures !Busy(d, n, x)
      ensures x in d.slabs[n].nodes ==> IsObj(d, n, x)
    {
      if 0 <= i < n {
        assert d.slabs[i] == c.slabs[i];
      }
    }
    forall i | 0 <= i < |d.slabs| ensures NodesOk(d, i) {
      if i < n { assert NodesOk(c, i); }
    }
    forall x
      ensures InSomeSlab(c, x) <==> InSomeSlab(d, x)
    {
      if i :| Busy(c, i, x) { assert Busy(d, i, x); }
      if i :| Busy(d, i, x) { assert Busy(c, i, x); }
    }
    NoDupCons(n, c.part);
  }

  lemma PopInv(c: Cache)
    requires Inv(c) && c.part != []
    ensures 0 <= c.part[0] < |c.slabs| && c.slabs[c.part[0]].nodes != []
    ensures Inv(Pop(c).0)
    ensures var x := Pop(c).1; x == c.slabs[c.part[0]].nodes[0] && x !in c.live && IsObj(c, c.part[0], x) && x >= 0
  {
    var i := c.part[0];
    assert i in c.part && NodesOk(c, i);
    var (d, x) := Pop(c);
    var nodes := c.slabs[i].nodes;
    assert x in nodes && nodes == [x] + d.slabs[i].nodes;
    assert IsObj(c, i, x);
    SameObjects(c, d);
    forall j, y
      ensures Busy(d, j, y) <==> Busy(c, j, y) || (j == i && y == x)
    {
      assert IsObj(d, j, y) <==> IsObj(c, j, y);
    }
    forall j | 0 <= j < |d.slabs| ensures NodesOk(d, j) { assert NodesOk(c, j); }
    InUseUpdate(c.cap, c.slabs, i, d.slabs[i]);
    OnlySlab(c, i, x);
    LivePlus(c, d, i, x);
    PartPop(c, d);
  }

  /** Changing only the free list of one slab moves no object. */
  lemma SameObjects(c: Cache, d: Cache)
    requires d.sz == c.sz && d.cap == c.cap && |d.slabs| == |c.slabs|
    requires forall j :: 0 <= j < |c.slabs| ==> d.slabs[j].base == c.slabs[j].base
    ensures forall j, y :: IsObj(d, j, y) <==> IsObj(c, j, y)
    ensures Apart(c) ==> Apart(d)
  {
  }

  /** The head of the partial list is a slab with a free object. */
  lemma PartHead(c: Cache)
    requires Inv(c)
    ensures c.part != [] ==> 0 <= c.part[0] < |c.slabs| && c.slabs[c.part[0]].nodes != []
    ensures c.part != [] ==> forall x :: x in c.slabs[c.part[0]].nodes ==> x >= 0
  {
    if c.part != [] {
      var i := c.part[0];
      assert i in c.part && NodesOk(c, i);
      forall x | x in c.slabs[i].nodes ensures x >= 0 { ObjInSlab(c, i, x); }
    }
  }

  /** An object on slab i's free list is in no other slab, so it is not live. */
  lemma OnlySlab(c: Cache, i: int, x: int)
    requires Geometry(c) && Apart(c) && LiveOk(c) && IsObj(c, i, x)
    ensures forall j :: IsObj(c, j, x) ==> j == i
    ensures x in c.live <==> x !in c.slabs[i].nodes
  {
    ObjInSlab(c, i, x);
    forall j | IsObj(c, j, x)
      ensures j == i
    {
      ObjInSlab(c, j, x);
      OneOwner(c, i, j, x);
    }
    if x !in c.slabs[i].nodes { assert Busy(c, i, x); }
    if x in c.live {
      var j :| Busy(c, j, x);
    }
  }

  lemma LivePlus(c: Cache, d: Cache, i: int, x: int)
    requires LiveOk(c) && d.live == c.live + {x}
    requires forall j, y :: Busy(d, j, y) <==> Busy(c, j, y) || (j == i && y == x)
    ensures LiveOk(d)
  {
    assert Busy(d, i, x);
    forall y
      ensures InSomeSlab(d, y) <==> InSomeSlab(c, y) || y == x
    {
      if j :| Busy(c, j, y) { assert Busy(d, j, y); }
      if j :| Busy(d, j, y) && y != x { assert Busy(c, j, y); }
    }
  }

  lemma LiveMinus(c: Cache, d: Cache, i: int, x: int)
    requires LiveOk(c) && d.live == c.live - {x} && (forall j :: Busy(c, j, x) ==> j == i)
    requires forall j, y :: Busy(d, j, y) <==> Busy(c, j, y) && !(j == i && y == x)
    ensures LiveOk(d)
  {
    forall y
      ensures InSomeSlab(d, y) <==> InSomeSlab(c, y) && y != x
    {
      if j :| Busy(c, j, y) && y != x { assert Busy(d, j, y); }
      if j :| Busy(d, j, y) { assert Busy(c, j, y); }
    }
  }

  /** A slab that just became full leaves the partial list; it was the head. */
  lemma PartPop(c: Cache, d: Cache)
    requires PartOk(c) && c.part != [] && 0 <= c.part[0] < |c.slabs| == |d.slabs|
    requires c.slabs[c.part[0]].nodes != []
    requires d.part == if d.slabs[c.part[0]].nodes == [] then c.part[1..] else c.part
    requires forall j :: 0 <= j < |c.slabs| && j != c.part[0] ==> d.slabs[j] == c.slabs[j]
    ensures PartOk(d)
  {
    assert c.part == [c.part[0]] + c.part[1..];
    assert forall k {:trigger c.part[k]} :: 0 <= k < |c.part| ==> c.part[k] in c.part;
    assert forall k {:trigger c.part[1..][k]} :: 0 <= k < |c.part| - 1 ==> c.part[1..][k] == c.part[k + 1];
  }

  lemma FreeInv(c: Cache, i: int, x: int)
    requires Inv(c) && x in c.live && IsObj(c, i, x)
    ensures Inv(Free(c, i, x))
  {
    var d := Free(c, i, x);
    OnlySlab(c, i, x);
    assert NodesOk(c, i);
    NoDupCons(x, c.slabs[i].nodes);
    SameObjects(c, d);
    forall j, y
      ensures Busy(d, j, y) <==> Busy(c, j, y) && !(j == i && y == x)
    {
      assert IsObj(d, j, y) <==> IsObj(c, j, y);
    }
    forall j | 0 <= j < |d.slabs| ensures NodesOk(d, j) { assert NodesOk(c, j); }
    InUseUpdate(c.cap, c.slabs, i, d.slabs[i]);
    LiveMinus(c, d, i, x);
    if c.slabs[i].nodes == [] { NoDupCons(i, c.part); }
    assert PartOk(d);
  }

  lemma AllocInv(c: Cache, region: int)
    requires Inv(c) && Granted(c, region)
    ensures Inv(Alloc(c, region).0)
  {
    if c.part != [] {
      PopInv(c);
    } else if region != NULL {
      NewSlabInv(c, region);
      PopInv(NewSlab(c, region));
    }
  }

  /** The cache `cache_alloc` takes its object from. */
  ghost function Refilled(c: Cache, region: int): Cache {
    if c.part == [] && region != NULL then NewSlab(c, region) else c
  }

  /** What `cache_alloc` may rely on before and after a new slab. */
  lemma AllocPlan(c: Cache, region: int)
    requires Inv(c) && Granted(c, region)
    ensures Inv(Alloc(c, region).0)
    ensures c.part != [] ==> 0 <= c.part[0] < |c.slabs|
    ensures var d := Refilled(c, region);
      if d.part == [] then Alloc(c, region) == (c, NULL) && d == c
      else
        && 0 <= d.part[0] < |d.slabs| && d.slabs[d.part[0]].nodes != []
        && (forall x :: x in d.slabs[d.part[0]].nodes ==> x >= 0)
        && Alloc(c, region) == Pop(d)
  {
    AllocInv(c, region);
    PartHead(c);
    if c.part == [] && region != NULL {
      NewSlabInv(c, region);
      PartHead(NewSlab(c, region));
    }
  }

  // ---------- What a caller gets ----------

  /** `cache_alloc` fails exactly when every object of every slab is live and mmap fails too;
      otherwise it hands out an object that was not live and that overlaps no live one. */
  lemma AllocGrants(c: Cache, region: int)
    requires Inv(c) && Granted(c, region)
    ensures var (d, x) := Alloc(c, region);
      && (x == NULL <==> |c.live| == |c.slabs| * c.cap && region == NULL)
      && (x == NULL ==> d == c)
      && (x != NULL ==> x !in c.live && d.live == c.live + {x} && exists i :: IsObj(d, i, x))
      && (x != NULL ==> forall y :: y in c.live ==> x + c.sz <= y || y + c.sz <= x)
  {
    var (d, x) := Alloc(c, region);
    AllocInv(c, region);
    FullCount(c);
    if c.part != [] {
      PopInv(c);
    } else if region != NULL {
      NewSlabInv(c, region);
      PopInv(NewSlab(c, region));
    }
    if x != NULL {
      LiveIsObj(d, x);
      forall y | y in c.live
        ensures x + c.sz <= y || y + c.sz <= x
      {
        LiveApart(d, x, y);
      }
    }
  }

  /** Different live objects do not overlap. */
  lemma LiveApart(c: Cache, x: int, y: int)
    requires Inv(c) && x in c.live && y in c.live && x != y
    ensures x + c.sz <= y || y + c.sz <= x
  {
    LiveIsObj(c, x);
    LiveIsObj(c, y);
    var i :| IsObj(c, i, x);
    var j :| IsObj(c, j, y);
    if x < y { ObjectsApart(c, i, x, j, y); } else { ObjectsApart(c, j, y, i, x); }
  }

  lemma LiveIsObj(c: Cache, y: int)
    requires LiveOk(c) && y in c.live
    ensures exists j :: IsObj(c, j, y)
  {
    var j :| Busy(c, j, y);
    assert IsObj(c, j, y);
  }

  /** The partial list is empty exactly when all objects are live. */
  lemma FullCount(c: Cache)
    requires Inv(c)
    ensures |c.live| <= |c.slabs| * c.cap
    ensures c.part == [] <==> |c.live| == |c.slabs| * c.cap
  {
    InUseBound(c.cap, c.slabs);
    if c.part != [] {
      var i := c.part[0];
      assert i in c.part;
      assert 0 <= i < |c.slabs| && c.slabs[i].nodes != [];
    } else {
      forall i | 0 <= i < |c.slabs|
        ensures c.slabs[i].nodes == []
      {
        assert i !in c.part;
      }
    }
  }

  lemma {:induction false} InUseBound(cap: nat, slabs: seq<Slab>)
    ensures InUse(cap, slabs) <= |slabs| * cap
    ensures InUse(cap, slabs) == |slabs| * cap <==> forall i :: 0 <= i < |slabs| ==> slabs[i].nodes == []
  {
    if slabs != [] {
      InUseBound(cap, slabs[1..]);
      assert |slabs| * cap == |slabs[1..]| * cap + cap;
      assert forall i :: 0 <= i < |slabs[1..]| ==> slabs[1..][i] == slabs[i + 1];
      assert forall i :: 0 < i < |slabs| ==> slabs[i] == slabs[1..][i - 1];
    }
  }

  /** `in_use` of a slab counts the live objects of that slab. */
  lemma InUseCounts(c: Cache, i: int)
    requires Inv(c) && 0 <= i < |c.slabs|
    ensures |set x | x in c.live && IsObj(c, i, x)| == c.cap - |c.slabs[i].nodes|
  {
    assert NodesOk(c, i);
    var all := Carved(c, c.slabs[i].base, c.cap);
    CarvedIs(c, c.slabs[i].base, c.cap);
    var objs, nodes := (set x | x in all), (set x | x in c.slabs[i].nodes);
    CardSeq(all);
    CardSeq(c.slabs[i].nodes);
    assert forall x :: x in objs <==> IsObj(c, i, x);
    forall x | IsObj(c, i, x) ensures x in c.live <==> x !in c.slabs[i].nodes { OnlySlab(c, i, x); }
    assert (set x | x in c.live && IsObj(c, i, x)) == objs - nodes;
  }

  lemma {:induction false} CardSeq(s: seq<int>)
    requires NoDup(s)
    ensures |set x | x in s| == |s|
  {
    if s != [] {
      CardSeq(s[1..]);
      assert (set x | x in s) == {s[0]} + (set x | x in s[1..]);
      assert forall j :: 0 <= j < |s[1..]| ==> s[1..][j] == s[j + 1];
    }
  }

  // ---------- The whole outcome of a call ----------

  /** Giving an object back to the slab that serves next, or to a full one, which then serves next:
      `cache_alloc` returns that very object and the cache is as it was, lists and all. Given to
      any other slab, it makes no difference to the next `cache_alloc`. */
  lemma FreeThenAlloc(c: Cache, i: int, x: int, region: int)
    requires Inv(c) && x in c.live && IsObj(c, i, x) && Granted(c, region)
    ensures Inv(Free(c, i, x)) && Granted(Free(c, i, x), region)
    ensures if c.slabs[i].nodes == [] || c.part[0] == i then
        Alloc(Free(c, i, x), region) == (c, x)
      else
        var (d, y) := Alloc(c, region);
        Alloc(Free(c, i, x), region) == (Free(d, i, x), y) && x in d.live && IsObj(d, i, x)
  {
    var e, nodes := Free(c, i, x), c.slabs[i].nodes;
    FreeInv(c, i, x);
    PartHead(c);
    FreeGranted(c, e, region);
    assert i in c.part <==> nodes != [];
    if nodes == [] || c.part[0] == i {
      FreeBack(c, i, x);
    } else {
      FreeElsewhere(c, i, x);
    }
  }

  lemma FreeGranted(c: Cache, e: Cache, region: int)
    requires Granted(c, region) && e.cap == c.cap && |e.slabs| == |c.slabs|
    requires forall j :: 0 <= j < |e.slabs| ==> e.slabs[j].base == c.slabs[j].base
    ensures Granted(e, region)
  {
  }

  lemma FreeBack(c: Cache, i: int, x: int)
    requires 0 <= i < |c.slabs| && x in c.live && (c.slabs[i].nodes == [] || (c.part != [] && c.part[0] == i))
    ensures var e := Free(c, i, x);
      e.part != [] && e.part[0] == i && e.slabs[i].nodes != [] && Pop(e) == (c, x)
  {
    var e, nodes := Free(c, i, x), c.slabs[i].nodes;
    assert e.slabs[i].nodes == [x] + nodes;
    assert Pop(e).0.slabs == c.slabs;
    assert Pop(e).0.live == c.live;
  }

  /** Taking from one slab and giving to another commute. */
  lemma FreeElsewhere(c: Cache, i: int, x: int)
    requires Inv(c) && c.part != [] && x in c.live && IsObj(c, i, x) && c.part[0] != i && c.slabs[i].nodes != []
    requires 0 <= c.part[0] < |c.slabs| && c.slabs[c.part[0]].nodes != []
    ensures var (d, y) := Pop(c); Pop(Free(c, i, x)) == (Free(d, i, x), y) && x in d.live && IsObj(d, i, x)
  {
    var (d, y) := Pop(c);
    PopInv(c);
    SameObjects(c, d);
    assert x != y;
    var p := Pop(Free(c, i, x)).0;
    assert p.slabs == Free(d, i, x).slabs;
    assert p.live == Free(d, i, x).live;
  }

  /** Giving back what was just handed out leaves the cache as it was, lists and all, but for the
      slab that may have been made. */
  lemma AllocThenFree(c: Cache, region: int)
    requires Inv(c) && Granted(c, region) && Alloc(c, region).1 != NULL
    ensures var (d, x) := Alloc(c, region);
      exists i :: IsObj(d, i, x) && Free(d, i, x) == Refilled(c, region)
  {
    var e := Refilled(c, region);
    if c.part == [] { NewSlabInv(c, region); }
    AllocPlan(c, region);
    PopInv(e);
    var (d, x) := Pop(e);
    var i := e.part[0];
    SameObjects(e, d);
    assert IsObj(d, i, x);
    assert e.slabs[i].nodes == [x] + d.slabs[i].nodes;
    assert Free(d, i, x).slabs == e.slabs;
    assert Free(d, i, x).live == e.live;
    assert e.part == [i] + e.part[1..];
  }

  // ---------- How many slabs a run makes ----------

  /** A call by the program: `cache_alloc` with what mmap would answer, or `cache_free(x)`. */
  datatype Op = Get(region: int) | Put(x: int)

  ghost predicate Legal(c: Cache, op: Op) {
    match op
    case Get(region) => Granted(c, region)
    case Put(x) => x in c.live
  }

  ghost function Owner(c: Cache, x: int): (i: int)
    requires Inv(c) && x in c.live
    ensures IsObj(c, i, x) && x !in c.slabs[i].nodes
  {
    assert InSomeSlab(c, x);
    var i :| Busy(c, i, x);
    i
  }

  ghost function Step(c: Cache, op: Op): Cache
    requires Inv(c) && Legal(c, op)
  {
    match op
    case Get(region) => Alloc(c, region).0
    case Put(x) => Free(c, Owner(c, x), x)
  }

  lemma StepInv(c: Cache, op: Op)
    requires Inv(c) && Legal(c, op)
    ensures Inv(Step(c, op)) && Step(c, op).cap == c.cap
  {
    match op
    case Get(region) => AllocInv(c, region);
    case Put(x) => FreeInv(c, Owner(c, x), x);
  }

  ghost predicate LegalRun(c: Cache, ops: seq<Op>)
    requires Inv(c)
    decreases |ops|
  {
    ops != [] ==> Legal(c, ops[0]) && (StepInv(c, ops[0]); LegalRun(Step(c, ops[0]), ops[1..]))
  }

  ghost function RunOps(c: Cache, ops: seq<Op>): (d: Cache)
    requires Inv(c) && LegalRun(c, ops)
    ensures Inv(d) && d.cap == c.cap
    decreases |ops|
  {
    if ops == [] then c else StepInv(c, ops[0]); RunOps(Step(c, ops[0]), ops[1..])
  }

  /** What a call returns; `cache_free` returns nothing. */
  ghost function Answer(c: Cache, op: Op): int
    requires Inv(c) && Legal(c, op)
  {
    if op.Get? then Alloc(c, op.region).1 else NULL
  }

  /** What the calls of a run return, in order. */
  ghost function Answers(c: Cache, ops: seq<Op>): (xs: seq<int>)
    requires Inv(c) && LegalRun(c, ops)
    ensures |xs| == |ops|
    decreases |ops|
  {
    if ops == [] then [] else StepInv(c, ops[0]); [Answer(c, ops[0])] + Answers(Step(c, ops[0]), ops[1..])
  }

  /** The objects a program holds after calls that answered `xs`. */
  function Held(held: set<int>, ops: seq<Op>, xs: seq<int>): set<int>
    requires |ops| == |xs|
    decreases |ops|
  {
    if ops == [] then held else Held(HeldAfter(held, ops[0], xs[0]), ops[1..], xs[1..])
  }

  function HeldAfter(held: set<int>, op: Op, x: int): set<int> {
    if op.Put? then held - {op.x} else if x == NULL then held else held + {x}
  }

  /** The live objects after a run are exactly those the program was given and has not freed. */
  lemma {:induction false} RunHeld(c: Cache, ops: seq<Op>)
    requires Inv(c) && LegalRun(c, ops)
    ensures RunOps(c, ops).live == Held(c.live, ops, Answers(c, ops))
    decreases |ops|
  {
    if ops != [] {
      StepInv(c, ops[0]);
      if ops[0].Get? { AllocGrants(c, ops[0].region); }
      assert Step(c, ops[0]).live == HeldAfter(c.live, ops[0], Answer(c, ops[0]));
      RunHeld(Step(c, ops[0]), ops[1..]);
    }
  }

  ghost predicate AllGets(ops: seq<Op>) {
    forall k :: 0 <= k < |ops| ==> ops[k].Get?
  }

  /** The last of m objects from `base` first, then down by the object size. */
  ghost predicate Descending(xs: seq<int>, base: int, m: nat, sz: nat) {
    forall k :: 0 <= k < |xs| ==> xs[k] == base + (m - 1 - k) * sz
  }

  /** While the slab that serves has the first m objects from `base` left, they are handed out from
      the last down. */
  lemma {:induction false} Drain(c: Cache, base: int, m: nat, ops: seq<Op>)
    requires Inv(c) && LegalRun(c, ops) && AllGets(ops) && |ops| <= m
    requires c.part != [] && 0 <= c.part[0] < |c.slabs| && c.slabs[c.part[0]].nodes == Carved(c, base, m)
    ensures Descending(Answers(c, ops), base, m, c.sz)
    decreases |ops|
  {
    if ops != [] {
      StepInv(c, ops[0]);
      var d := Step(c, ops[0]);
      assert Answer(c, ops[0]) == base + (m - 1) * c.sz;
      if |ops| > 1 {
        CarvedSame(c, d, base, m - 1);
        Drain(d, base, m - 1, ops[1..]);
      }
      forall k | 0 <= k < |ops|
        ensures Answers(c, ops)[k] == base + (m - 1 - k) * c.sz
      {
        if k > 0 { assert Answers(c, ops)[k] == Answers(d, ops[1..])[k - 1]; }
      }
    }
  }

  lemma {:induction false} CarvedSame(c: Cache, d: Cache, base: int, n: nat)
    requires c.sz == d.sz
    ensures Carved(c, base, n) == Carved(d, base, n)
  {
    if n > 0 { CarvedSame(c, d, base, n - 1); }
  }

  /** A new slab hands out its objects from the last down to the first. */
  lemma NewSlabOrder(c: Cache, ops: seq<Op>)
    requires Inv(c) && LegalRun(c, ops) && AllGets(ops) && 0 < |ops| <= c.cap
    requires c.part == [] && ops[0].region != NULL
    ensures Descending(Answers(c, ops), ops[0].region + HEADER, c.cap, c.sz)
  {
    var r := ops[0].region;
    NewSlabFirst(c, r);
    var e := NewSlab(c, r);
    CarvedSame(c, e, r + HEADER, c.cap);
    // from the cache with the slab made, the first call needs no region
    var ops' := [Get(NULL)] + ops[1..];
    SameFirst(c, e, ops, ops');
    Drain(e, r + HEADER, c.cap, ops');
  }

  lemma NewSlabFirst(c: Cache, region: int)
    requires Inv(c) && Granted(c, region) && c.part == [] && region != NULL
    ensures var e, n := NewSlab(c, region), |c.slabs|;
      && Inv(e) && Alloc(e, NULL) == Alloc(c, region)
      && e.part != [] && e.part[0] == n && e.slabs[n].nodes == Carved(c, region + HEADER, c.cap)
  {
    NewSlabInv(c, region);
  }

  lemma SameFirst(c: Cache, e: Cache, ops: seq<Op>, ops': seq<Op>)
    requires Inv(c) && LegalRun(c, ops) && Inv(e) && ops != [] && ops' != [] && ops[1..] == ops'[1..]
    requires Legal(e, ops'[0])
    requires Step(c, ops[0]) == Step(e, ops'[0]) && Answer(c, ops[0]) == Answer(e, ops'[0])
    ensures LegalRun(e, ops') && Answers(e, ops') == Answers(c, ops)
  {
  }

  function Max(x: nat, y: nat): nat { if x < y then y else x }

  /** The most objects ever live at once during the run. */
  ghost function Peak(c: Cache, ops: seq<Op>): nat
    requires Inv(c) && LegalRun(c, ops)
    decreases |ops|
  {
    Max(|c.live|, if ops == [] then 0 else StepInv(c, ops[0]); Peak(Step(c, ops[0]), ops[1..]))
  }

  /** n is the least number of slabs of `cap` objects that hold `peak` objects. */
  ghost predicate Enough(n: nat, cap: nat, peak: nat) {
    peak <= n * cap && (n > 0 ==> (n - 1) * cap < peak)
  }

  lemma StepSlabs(c: Cache, op: Op, peak: nat)
    requires Inv(c) && Legal(c, op) && |c.live| <= peak && Enough(|c.slabs|, c.cap, peak)
    ensures var d := Step(c, op); Enough(|d.slabs|, c.cap, Max(peak, |d.live|))
  {
    var d := Step(c, op);
    StepInv(c, op);
    FullCount(c);
    FullCount(d);
    if op.Get? {
      if c.part != [] {
        PopInv(c);
      } else if op.region != NULL {
        NewSlabInv(c, op.region);
        PopInv(NewSlab(c, op.region));
      }
    }
  }

  lemma {:induction false} RunSlabs(c: Cache, ops: seq<Op>, peak: nat)
    requires Inv(c) && LegalRun(c, ops) && |c.live| <= peak && Enough(|c.slabs|, c.cap, peak)
    ensures Enough(|RunOps(c, ops).slabs|, c.cap, Max(peak, Peak(c, ops)))
    decreases |ops|
  {
    if ops != [] {
      StepInv(c, ops[0]);
      StepSlabs(c, ops[0], peak);
      var d := Step(c, ops[0]);
      RunSlabs(d, ops[1..], Max(peak, |d.live|));
    }
  }

  lemma EnoughIsCeiling(n: nat, cap: nat, peak: nat)
    requires cap > 0 && Enough(n, cap, peak)
    ensures n == (peak + cap - 1) / cap
  {
    if n == 0 {
      DivUnique(peak + cap - 1, cap, 0, peak + cap - 1);
    } else {
      assert n * cap == (n - 1) * cap + cap;
      DivUnique(peak + cap - 1, cap, n, peak + cap - 1 - n * cap);
    }
  }

  /** A run that starts with no slabs maps exactly as many as its peak of live objects needs. */
  lemma SlabsMinimal(sz: nat, ops: seq<Op>)
    requires 0 < sz <= SLAB_BYTES - HEADER && Inv(Init(sz)) && LegalRun(Init(sz), ops)
    ensures var cap := Init(sz).cap;
      |RunOps(Init(sz), ops).slabs| == (Peak(Init(sz), ops) + cap - 1) / cap
  {
    RunSlabs(Init(sz), ops, 0);
    EnoughIsCeiling(|RunOps(Init(sz), ops).slabs|, Init(sz).cap, Peak(Init(sz), ops));
  }
}
