/** Counting, undoing and runs of the slab allocator, with what callers hold as a set of its own. */
module SlabTheorems {
  import opened Basics
  import opened SlabSpec
  import opened SlabChains

  /** `live`, the objects handed out and not yet released, are exactly the slots not free. */
  ghost predicate Tracks(a: Cache, live: set<Obj>) {
    forall o :: o in live <==> IsLive(a, o)
  }

  /** An allocation hands out an object that is not held, and the record follows. */
  lemma AllocTracks(a: Cache, live: set<Obj>, mem: nat)
    requires Inv(a) && Tracks(a, live) && (HasRoom(a) || Fits(a, mem))
    ensures HasRoom(a) ==> Chosen(a) in a.slots
    ensures var (b, o) := Alloc(a, mem);
            Inv(b) && b.size == a.size && o !in live && Tracks(b, live + {o})
  {
    AllocInv(a, mem);
  }

  lemma FreeTracks(a: Cache, live: set<Obj>, o: Obj)
    requires Inv(a) && Tracks(a, live) && o in live
    ensures o.slab in a.slots
    ensures var b := Free(a, o); Inv(b) && b.size == a.size && Tracks(b, live - {o})
  {
    FreeInv(a, o);
  }

  // ---- conservation ----

  ghost function Pick(keys: set<nat>): (s: nat)
    requires keys != {}
    ensures s in keys
  {
    var s :| s in keys;
    s
  }

  /** The `num_free` counters of the slabs `keys`, added up. */
  ghost function FreeTotal(slabs: map<nat, SlabRec>, keys: set<nat>): nat
    requires keys <= slabs.Keys
    decreases |keys|
  {
    if keys == {} then 0
    else var s := Pick(keys); slabs[s].numFree + FreeTotal(slabs, keys - {s})
  }

  ghost function LiveIn(live: set<Obj>, keys: set<nat>): set<Obj> {
    set o | o in live && o.slab in keys
  }

  lemma {:induction false} ColumnCount(s: nat, slots: set<nat>)
    ensures |set i | i in slots :: Obj(s, i)| == |slots|
  {
    if slots != {} {
      var i :| i in slots;
      ColumnCount(s, slots - {i});
      assert (set j | j in slots :: Obj(s, j)) == (set j | j in slots - {i} :: Obj(s, j)) + {Obj(s, i)};
    }
  }

  /** What one slab has handed out, and its counter, make up its sixteen chunks. */
  lemma SlabCount(a: Cache, live: set<Obj>, s: nat, r: SlabRec)
    requires Inv(a) && Tracks(a, live) && s in a.slots && ChainOk(r, a.slots[s])
    ensures |LiveIn(live, {s})| + r.numFree == CAPACITY
  {
    var used := AllSlots() - a.slots[s];
    assert Placed(a, s);
    AllSlotsCount();
    assert a.slots[s] <= AllSlots();
    assert |used| == CAPACITY - |a.slots[s]|;
    ColumnCount(s, used);
    assert LiveIn(live, {s}) == set i | i in used :: Obj(s, i);
  }

  lemma LiveSplit(live: set<Obj>, keys: set<nat>, s: nat)
    requires s in keys
    ensures |LiveIn(live, keys)| == |LiveIn(live, keys - {s})| + |LiveIn(live, {s})|
  {
    assert LiveIn(live, keys) == LiveIn(live, keys - {s}) + LiveIn(live, {s});
    assert LiveIn(live, keys - {s}) !! LiveIn(live, {s});
  }

  lemma {:induction false} CountsAddUp(a: Cache, live: set<Obj>, slabs: map<nat, SlabRec>, keys: set<nat>)
    requires Inv(a) && Tracks(a, live) && ChainsOk(slabs, a) && keys <= slabs.Keys
    ensures |LiveIn(live, keys)| + FreeTotal(slabs, keys) == CAPACITY * |keys|
    decreases |keys|
  {
    if keys == {} {
      assert LiveIn(live, keys) == {};
    } else {
      var s := Pick(keys);
      CountsAddUp(a, live, slabs, keys - {s});
      LiveSplit(live, keys, s);
      SlabCount(a, live, s, slabs[s]);
    }
  }

  /** The objects callers hold and the counters the slabs keep make 16 for each slab. */
  lemma Conservation(a: Cache, live: set<Obj>, slabs: map<nat, SlabRec>)
    requires Inv(a) && Tracks(a, live) && ChainsOk(slabs, a)
    ensures |live| + FreeTotal(slabs, slabs.Keys) == 16 * |slabs|
  {
    CountsAddUp(a, live, slabs, slabs.Keys);
    assert LiveIn(live, slabs.Keys) == live;
  }

  // ---- release undoes allocation ----

  lemma SlotBack(f: set<nat>, i: nat)
    requires i in f
    ensures f - {i} + {i} == f
    ensures |f - {i}| == |f| - 1
  {
  }

  /** Releasing the object just allocated restores the cache exactly, the order of its three lists
      included; where no slab had room, the new slab is left, wholly free. */
  lemma FreeUndoesAlloc(a: Cache, mem: nat)
    requires Inv(a) && (HasRoom(a) || Fits(a, mem))
    ensures HasRoom(a) ==> Chosen(a) in a.slots
    ensures var (b, o) := Alloc(a, mem);
            o.slab in b.slots && Free(b, o) == if HasRoom(a) then a else AddSlab(a, mem)
  {
    if HasRoom(a) {
      TakeRestored(a);
    } else {
      AddSlabInv(a, mem);
      TakeRestored(AddSlab(a, mem));
    }
  }

  lemma TakeRestored(a: Cache)
    requires Inv(a) && HasRoom(a)
    ensures Chosen(a) in a.slots
    ensures var (b, o) := Take(a); o.slab in b.slots && Free(b, o) == a
  {
    ChosenPlaced(a);
    var (b, o) := Take(a);
    TakeUndone(a, Chosen(a), b, o);
  }

  lemma TakeUndone(a: Cache, s: nat, b: Cache, o: Obj)
    requires Inv(a) && HasRoom(a) && s == Chosen(a) && s in a.slots && (b, o) == Take(a)
    ensures o.slab in b.slots && Free(b, o) == a
  {
    ChosenPlaced(a);
    SomeSlotFree(a.slots[s]);
    SlotBack(a.slots[s], o.slot);
    assert b.slots[s := b.slots[s] + {o.slot}] == a.slots;
    if a.partial != [] {
      PartialUndone(a, b, s);
    } else {
      AllSlotsCount();
      assert [s] + a.free[1..] == a.free;
      assert Without([s], 0) == [];
    }
  }

  lemma PartialUndone(a: Cache, b: Cache, s: nat)
    requires Inv(a) && a.partial != [] && s == a.partial[0] && s in a.slots && Placed(a, s)
    requires b == Take(a).0
    ensures |a.slots[s]| == 1 ==>
              b.full == [s] + a.full && b.partial == a.partial[1..]
              && Without(b.full, IndexOf(b.full, s)) == a.full && [s] + b.partial == a.partial
    ensures |a.slots[s]| != 1 ==> b.full == a.full && b.partial == a.partial && b.free == a.free
    ensures s !in a.full && 0 < |a.slots[s]| < CAPACITY
  {
    assert s in a.partial;
    SomeSlotFree(a.slots[s]);
    SlotBack(a.slots[s], NextFree(a.slots[s], 0));
    assert [s] + a.partial[1..] == a.partial;
    assert Without([s] + a.full, 0) == a.full;
  }

  // ---- runs ----

  datatype Op = AllocOp(mem: nat) | FreeOp(o: Obj)

  /** A cache and what its callers hold. */
  datatype Sys = Sys(cache: Cache, live: set<Obj>)

  ghost predicate Good(y: Sys) {
    Inv(y.cache) && Tracks(y.cache, y.live)
  }

  /** A caller may release what it holds; the kernel heap supplies memory apart from all slabs. */
  predicate Enabled(y: Sys, op: Op) {
    match op
    case AllocOp(mem) => if HasRoom(y.cache) then Chosen(y.cache) in y.cache.slots else Fits(y.cache, mem)
    case FreeOp(o) => o in y.live && o.slab in y.cache.slots
  }

  function Step(y: Sys, op: Op): Sys
    requires Enabled(y, op)
  {
    match op
    case AllocOp(mem) => var (b, o) := Alloc(y.cache, mem); Sys(b, y.live + {o})
    case FreeOp(o) => Sys(Free(y.cache, o), y.live - {o})
  }

  predicate IsRun(run: seq<Sys>, ops: seq<Op>) {
    && |run| == |ops| + 1
    && (forall i :: 0 <= i < |ops| ==> Enabled(run[i], ops[i]) && run[i + 1] == Step(run[i], ops[i]))
  }

  predicate NoSharedByte(size: nat, o: Obj, p: Obj) {
    ObjAddr(size, o) + size <= ObjAddr(size, p) || ObjAddr(size, p) + size <= ObjAddr(size, o)
  }

  /** A step keeps the invariant and the record of what is held; what an allocation returns is held
      by no one and shares no byte with anything held. */
  lemma StepGood(y: Sys, op: Op)
    requires Good(y) && Enabled(y, op)
    ensures Good(Step(y, op)) && Step(y, op).cache.size == y.cache.size
    ensures op.AllocOp? ==>
              var o := Alloc(y.cache, op.mem).1;
              o !in y.live && forall p :: p in y.live ==> NoSharedByte(y.cache.size, o, p)
  {
    match op
    case AllocOp(mem) =>
      AllocTracks(y.cache, y.live, mem);
      var (b, o) := Alloc(y.cache, mem);
      forall p | p in y.live ensures NoSharedByte(y.cache.size, o, p) {
        assert IsLive(b, p) && IsLive(b, o);
        NoOverlap(b, o, p);
      }
    case FreeOp(o) =>
      FreeTracks(y.cache, y.live, o);
  }

  /** In every state of every run each slab is in exactly the list its free slots call for, what
      callers hold is exactly what is not free, no two objects held share a byte, and an
      allocation returns nothing that is held. */
  lemma {:induction false} RunsSound(size: nat, mem0: nat, run: seq<Sys>, ops: seq<Op>, i: nat)
    requires IsRun(run, ops) && run[0] == Sys(AddSlab(Empty(size), mem0), {}) && i < |run|
    ensures Good(run[i]) && run[i].cache.size == size
    ensures forall o, p :: o in run[i].live && p in run[i].live && o != p ==> NoSharedByte(size, o, p)
    ensures i < |ops| && ops[i].AllocOp? ==> Alloc(run[i].cache, ops[i].mem).1 !in run[i].live
  {
    if i == 0 {
      AddSlabInv(Empty(size), mem0);
    } else {
      RunsSound(size, mem0, run, ops, i - 1);
      assert Enabled(run[i - 1], ops[i - 1]) && run[i - 1 + 1] == Step(run[i - 1], ops[i - 1]);
      StepGood(run[i - 1], ops[i - 1]);
    }
    forall o, p | o in run[i].live && p in run[i].live && o != p ensures NoSharedByte(size, o, p) {
      NoOverlap(run[i].cache, o, p);
    }
    if i < |ops| {
      assert Enabled(run[i], ops[i]);
      StepGood(run[i], ops[i]);
    }
  }
}
