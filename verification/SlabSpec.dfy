/** The slab allocator on values: three lists of slabs, and the free slots of each slab. */
module SlabSpec {
  import opened Basics
  import opened SlabLists

  const CAPACITY: nat := 16
  /** Bytes of `struct slab_chunk` and `struct slab` on the 32-bit target. */
  const CHUNK_HEADER: nat := 20
  const SLAB_HEADER: nat := 40

  /** `slots[s]` are the free slots of the slab at address `s`. */
  datatype Cache = Cache(
    size: nat,
    free: seq<nat>,
    partial: seq<nat>,
    full: seq<nat>,
    slots: map<nat, set<nat>>)

  datatype Obj = Obj(slab: nat, slot: nat)

  // ---- addresses ----

  function ChunkAddr(size: nat, s: nat, i: nat): nat {
    s + SLAB_HEADER + i * (size + CHUNK_HEADER)
  }

  function ObjAddr(size: nat, o: Obj): nat {
    ChunkAddr(size, o.slab, o.slot) + CHUNK_HEADER
  }

  /** What one slab asks of the kernel heap: 16 chunks and the sentinel's header. */
  function SlabBytes(size: nat): nat {
    SLAB_HEADER + CAPACITY * (size + CHUNK_HEADER) + CHUNK_HEADER
  }

  lemma ChunkOrder(size: nat, s: nat, i: nat, j: nat)
    requires i < j
    ensures ChunkAddr(size, s, i) + CHUNK_HEADER + size <= ChunkAddr(size, s, j)
  {
    assert (i + 1) * (size + CHUNK_HEADER) <= j * (size + CHUNK_HEADER);
  }

  predicate Apart(size: nat, s: nat, t: nat) {
    s + SlabBytes(size) <= t || t + SlabBytes(size) <= s
  }

  /** Memory the kernel heap may hand out for a new slab. */
  predicate Fits(a: Cache, mem: nat) {
    forall s :: s in a.slots ==> Apart(a.size, s, mem)
  }

  // ---- slots ----

  predicate IsSlot(i: nat) {
    i < CAPACITY
  }

  function SlotsBelow(n: nat): set<nat> {
    set i | 0 <= i < n && IsSlot(i)
  }

  function AllSlots(): set<nat> {
    SlotsBelow(CAPACITY)
  }

  /** The lowest free slot from `i` on; the sentinel slot when there is none. */
  function NextFree(f: set<nat>, i: nat): (r: nat)
    requires i <= CAPACITY
    ensures i <= r <= CAPACITY
    ensures r < CAPACITY ==> r in f
    ensures forall j :: i <= j < r ==> j !in f
    decreases CAPACITY - i, f
  {
    if i == CAPACITY || i in f then i else NextFree(f, i + 1)
  }

  function IndexOf(xs: seq<nat>, s: nat): (k: nat)
    requires s in xs
    ensures k < |xs| && xs[k] == s
  {
    if xs[0] == s then 0 else 1 + IndexOf(xs[1..], s)
  }

  // ---- operations ----

  function Empty(size: nat): Cache {
    Cache(size, [], [], [], map[])
  }

  function AddSlab(a: Cache, mem: nat): Cache {
    a.(free := [mem] + a.free, slots := a.slots[mem := AllSlots()])
  }

  predicate HasRoom(a: Cache) {
    a.partial != [] || a.free != []
  }

  function Chosen(a: Cache): nat
    requires HasRoom(a)
  {
    if a.partial != [] then a.partial[0] else a.free[0]
  }

  /** Takes the lowest free slot of the chosen slab and moves the slab when it becomes full or
      stops being wholly free.  A slab that becomes full heads the partial list and one that
      stops being wholly free heads the free list, as `TakeInv` shows. */
  function Take(a: Cache): (Cache, Obj)
    requires HasRoom(a) && Chosen(a) in a.slots
  {
    var s := Chosen(a);
    var i := NextFree(a.slots[s], 0);
    var f := a.slots[s] - {i};
    var b := a.(slots := a.slots[s := f]);
    (if |f| == 0 && a.partial != [] then b.(partial := a.partial[1..], full := [s] + a.full)
     else if |f| == CAPACITY - 1 && a.free != [] then b.(free := a.free[1..], partial := [s] + a.partial)
     else b,
     Obj(s, i))
  }

  function Alloc(a: Cache, mem: nat): (Cache, Obj)
    requires HasRoom(a) ==> Chosen(a) in a.slots
  {
    if HasRoom(a) then Take(a) else Take(AddSlab(a, mem))
  }

  function Free(a: Cache, o: Obj): Cache
    requires o.slab in a.slots
  {
    var s := o.slab;
    var f := a.slots[s] + {o.slot};
    var b := a.(slots := a.slots[s := f]);
    if |f| == 1 && s in a.full then
      b.(full := Without(a.full, IndexOf(a.full, s)), partial := [s] + a.partial)
    else if |f| == CAPACITY && s in a.partial then
      b.(partial := Without(a.partial, IndexOf(a.partial, s)), free := [s] + a.free)
    else b
  }

  // ---- invariant ----

  /** The slab sits in exactly the list its number of free slots calls for. */
  predicate Placed(a: Cache, s: nat)
    requires s in a.slots
  {
    && (forall i :: i in a.slots[s] ==> i < CAPACITY)
    && (s in a.free <==> |a.slots[s]| == CAPACITY)
    && (s in a.full <==> |a.slots[s]| == 0)
    && (s in a.partial <==> 0 < |a.slots[s]| < CAPACITY)
  }

  ghost predicate Inv(a: Cache) {
    && Distinct(a.free) && Distinct(a.partial) && Distinct(a.full)
    && (forall s :: s in a.free || s in a.partial || s in a.full ==> s in a.slots)
    && (forall s :: s in a.slots ==> Placed(a, s))
    && (forall s, t :: s in a.slots && t in a.slots && s != t ==> Apart(a.size, s, t))
  }

  predicate IsLive(a: Cache, o: Obj) {
    o.slab in a.slots && o.slot < CAPACITY && o.slot !in a.slots[o.slab]
  }

  // ---- what the operations keep ----

  lemma {:induction false} CountBelow(n: nat)
    requires n <= CAPACITY
    ensures |SlotsBelow(n)| == n
  {
    if n > 0 {
      CountBelow(n - 1);
      assert SlotsBelow(n) == SlotsBelow(n - 1) + {n - 1};
    }
  }

  lemma AllSlotsCount()
    ensures |AllSlots()| == CAPACITY
  {
    CountBelow(CAPACITY);
  }

  lemma FullSetIsAll(f: set<nat>)
    requires forall i :: i in f ==> i < CAPACITY
    ensures |f| <= CAPACITY
    ensures |f| == CAPACITY <==> f == AllSlots()
  {
    AllSlotsCount();
    assert f <= AllSlots();
    assert |AllSlots() - f| == |AllSlots()| - |f|;
    if |f| == CAPACITY {
      assert AllSlots() - f == {};
    }
  }

  lemma SomeSlotFree(f: set<nat>)
    requires f != {} && forall i :: i in f ==> i < CAPACITY
    ensures NextFree(f, 0) < CAPACITY && NextFree(f, 0) in f
  {
    var i :| i in f;
    assert i < CAPACITY;
  }

  lemma TailMembers(xs: seq<nat>)
    requires Distinct(xs) && xs != []
    ensures Distinct(xs[1..])
    ensures forall x :: x in xs[1..] <==> x in xs && x != xs[0]
  {
    assert Without(xs, 0) == xs[1..];
    WithoutMembers(xs, 0);
  }

  lemma AddSlabInv(a: Cache, mem: nat)
    requires Inv(a) && Fits(a, mem)
    ensures mem !in a.slots && Inv(AddSlab(a, mem))
    ensures forall o :: IsLive(AddSlab(a, mem), o) <==> IsLive(a, o)
  {
    AllSlotsCount();
    var b := AddSlab(a, mem);
    forall s | s in b.slots ensures Placed(b, s) {
      if s != mem {
        assert Placed(a, s);
      }
    }
  }

  lemma ChosenPlaced(a: Cache)
    requires Inv(a) && HasRoom(a)
    ensures Chosen(a) in a.slots && Placed(a, Chosen(a)) && a.slots[Chosen(a)] != {}
    ensures a.partial == [] ==> a.slots[Chosen(a)] == AllSlots()
  {
    var s := Chosen(a);
    assert s in a.partial || s in a.free;
    assert Placed(a, s);
    FullSetIsAll(a.slots[s]);
  }

  /** Taking a slot makes exactly that object live, and it was free. */
  lemma TakeInv(a: Cache)
    requires Inv(a) && HasRoom(a)
    ensures Chosen(a) in a.slots
    ensures var (b, o) := Take(a);
            && Inv(b) && b.size == a.size && !IsLive(a, o)
            && o.slab in a.slots && o.slot == NextFree(a.slots[o.slab], 0) && o.slot < CAPACITY
            && forall p :: IsLive(b, p) <==> IsLive(a, p) || p == o
  {
    ChosenPlaced(a);
    var s := Chosen(a);
    SomeSlotFree(a.slots[s]);
    FullSetIsAll(a.slots[s]);
    var (b, o) := Take(a);
    if a.partial != [] {
      TailMembers(a.partial);
    }
    if a.free != [] {
      TailMembers(a.free);
    }
    forall t | t in b.slots ensures Placed(b, t) {
      assert Placed(a, t);
      TakePlaced(a, t);
    }
  }

  lemma TakePlaced(a: Cache, t: nat)
    requires Inv(a) && HasRoom(a) && Chosen(a) in a.slots && t in a.slots && Placed(a, t)
    ensures var (b, o) := Take(a); t in b.slots && Placed(b, t)
  {
    ChosenPlaced(a);
    var s := Chosen(a);
    SomeSlotFree(a.slots[s]);
    FullSetIsAll(a.slots[s]);
    if a.partial != [] {
      TailMembers(a.partial);
    }
    if a.free != [] {
      TailMembers(a.free);
    }
    assert Placed(a, s);
  }

  /** Allocation: the invariant is kept and one object that was not live becomes live. */
  lemma AllocInv(a: Cache, mem: nat)
    requires Inv(a) && (HasRoom(a) || Fits(a, mem))
    ensures HasRoom(a) ==> Chosen(a) in a.slots
    ensures var (b, o) := Alloc(a, mem);
            && Inv(b) && b.size == a.size && !IsLive(a, o)
            && forall p :: IsLive(b, p) <==> IsLive(a, p) || p == o
  {
    if HasRoom(a) {
      TakeInv(a);
    } else {
      AddSlabInv(a, mem);
      TakeInv(AddSlab(a, mem));
    }
  }

  lemma FreedSlots(a: Cache, o: Obj, b: Cache)
    requires o.slab in a.slots && b == Free(a, o)
    ensures b.size == a.size && b.slots == a.slots[o.slab := a.slots[o.slab] + {o.slot}]
  {
  }

  lemma FreedLive(a: Cache, o: Obj, b: Cache, p: Obj)
    requires IsLive(a, o) && b.slots == a.slots[o.slab := a.slots[o.slab] + {o.slot}]
    ensures IsLive(b, p) <==> IsLive(a, p) && p != o
  {
  }

  /** Release: the invariant is kept and exactly the released object stops being live. */
  lemma FreeInv(a: Cache, o: Obj)
    requires Inv(a) && IsLive(a, o)
    ensures var b := Free(a, o);
            Inv(b) && b.size == a.size && forall p :: IsLive(b, p) <==> IsLive(a, p) && p != o
  {
    var b := Free(a, o);
    FreedSlots(a, o, b);
    forall p ensures IsLive(b, p) <==> IsLive(a, p) && p != o {
      FreedLive(a, o, b, p);
    }
    assert Inv(b) by {
      forall t | t in b.slots ensures Placed(b, t) {
        FreePlaced(a, o, t);
      }
      FreeLists(a, o);
    }
  }

  lemma FreeLists(a: Cache, o: Obj)
    requires Inv(a) && IsLive(a, o)
    ensures var b := Free(a, o);
            && Distinct(b.free) && Distinct(b.partial) && Distinct(b.full)
            && forall s :: s in b.free || s in b.partial || s in b.full ==> s in b.slots
  {
    var s := o.slab;
    assert Placed(a, s);
    assert |a.slots[s] + {o.slot}| == |a.slots[s]| + 1;
    if s in a.full {
      WithoutMembers(a.full, IndexOf(a.full, s));
    }
    if s in a.partial {
      WithoutMembers(a.partial, IndexOf(a.partial, s));
    }
  }

  lemma FreePlaced(a: Cache, o: Obj, t: nat)
    requires Inv(a) && IsLive(a, o) && t in a.slots
    ensures t in Free(a, o).slots && Placed(Free(a, o), t)
  {
    var s := o.slab;
    assert Placed(a, s) && Placed(a, t);
    assert |a.slots[s] + {o.slot}| == |a.slots[s]| + 1;
    FullSetIsAll(a.slots[s] + {o.slot});
    if s in a.full {
      WithoutMembers(a.full, IndexOf(a.full, s));
    }
    if s in a.partial {
      WithoutMembers(a.partial, IndexOf(a.partial, s));
    }
  }

  /** Two different objects of a cache never share a byte. */
  lemma NoOverlap(a: Cache, o: Obj, p: Obj)
    requires Inv(a) && o != p
    requires o.slab in a.slots && o.slot < CAPACITY && p.slab in a.slots && p.slot < CAPACITY
    ensures ObjAddr(a.size, o) + a.size <= ObjAddr(a.size, p) || ObjAddr(a.size, p) + a.size <= ObjAddr(a.size, o)
  {
    InsideSlab(a.size, o);
    InsideSlab(a.size, p);
    if o.slab == p.slab {
      ChunkOrder(a.size, o.slab, if o.slot < p.slot then o.slot else p.slot,
                 if o.slot < p.slot then p.slot else o.slot);
    }
  }

  lemma InsideSlab(size: nat, o: Obj)
    requires o.slot < CAPACITY
    ensures o.slab <= ObjAddr(size, o) && ObjAddr(size, o) + size <= o.slab + SlabBytes(size)
  {
    ChunkOrder(size, o.slab, o.slot, CAPACITY);
  }

  // ---- where objects come from and where they lie ----

  /** Some but not all chunks of slab `s` are free. */
  predicate Partly(a: Cache, s: nat) {
    s in a.slots && 0 < |a.slots[s]| < CAPACITY
  }

  predicate Wholly(a: Cache, s: nat) {
    s in a.slots && |a.slots[s]| == CAPACITY
  }

  /** An allocation draws on a partly free slab as long as there is one, then on a wholly free one,
      and on new memory only when every slab is full; it takes the lowest free chunk. */
  lemma AllocChoice(a: Cache, mem: nat)
    requires Inv(a) && (HasRoom(a) || Fits(a, mem))
    ensures HasRoom(a) ==> Chosen(a) in a.slots
    ensures var o := Alloc(a, mem).1;
            if exists s :: Partly(a, s) then Partly(a, o.slab)
            else if exists s :: Wholly(a, s) then Wholly(a, o.slab)
            else o.slab == mem && o.slot == 0
    ensures var o := Alloc(a, mem).1;
            o.slab in a.slots ==> o.slot in a.slots[o.slab] && forall i :: i in a.slots[o.slab] ==> o.slot <= i
  {
    if HasRoom(a) {
      ChosenPlaced(a);
      var s := Chosen(a);
      SomeSlotFree(a.slots[s]);
      if t :| Partly(a, t) {
        assert Placed(a, t);
      }
      if a.partial != [] {
        assert s in a.partial && Partly(a, s);
      } else {
        AllSlotsCount();
        assert Wholly(a, s);
      }
    } else {
      AddSlabInv(a, mem);
      forall t | t in a.slots ensures !Partly(a, t) && !Wholly(a, t) {
        assert Placed(a, t);
      }
      SomeSlotFree(AllSlots());
    }
  }

  /** An object lies behind its slab's header and clear of every chunk header and of the sentinel. */
  lemma ClearOfHeaders(size: nat, o: Obj, j: nat)
    requires o.slot < CAPACITY && j <= CAPACITY
    ensures o.slab + SLAB_HEADER + CHUNK_HEADER <= ObjAddr(size, o)
    ensures ObjAddr(size, o) + size <= ChunkAddr(size, o.slab, j)
         || ChunkAddr(size, o.slab, j) + CHUNK_HEADER <= ObjAddr(size, o)
    ensures ChunkAddr(size, o.slab, CAPACITY) + CHUNK_HEADER == o.slab + SlabBytes(size)
  {
    if o.slot < j {
      ChunkOrder(size, o.slab, o.slot, j);
    } else if j < o.slot {
      ChunkOrder(size, o.slab, j, o.slot);
    }
  }
}
