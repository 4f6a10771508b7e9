/** The slab allocator itself: the pointer updates of `mem/slav_allocator.c` on an unaligned
    cache, proved against `SlabSpec`. */
module SlabAllocator {
  import opened Basics
  import opened SlabLists
  import opened SlabSpec
  import opened SlabChains
  import opened SlabTheorems

  predicate ListsOk(l: Links, a: Cache) {
    IsList(l, FreeHead, a.free) && IsList(l, PartialHead, a.partial) && IsList(l, FullHead, a.full)
  }

  /** The header before object `o` names its slab. */
  predicate HeaderAt(headers: map<nat, Obj>, size: nat, o: Obj) {
    ChunkAddr(size, o.slab, o.slot) in headers && headers[ChunkAddr(size, o.slab, o.slot)] == o
  }

  ghost predicate HeadersOk(headers: map<nat, Obj>, a: Cache) {
    forall o: Obj {:trigger HeaderAt(headers, a.size, o)} ::
      o.slab in a.slots && o.slot < CAPACITY ==> HeaderAt(headers, a.size, o)
  }

  lemma InOneList(a: Cache, s: nat)
    requires Inv(a) && s in a.slots
    ensures s in a.free ==> s !in a.partial && s !in a.full
    ensures s in a.partial ==> s !in a.free && s !in a.full
    ensures s in a.full ==> s !in a.free && s !in a.partial
  {
    assert Placed(a, s);
  }

  lemma ListsApart(a: Cache)
    requires Inv(a)
    ensures forall s :: s in a.free ==> s !in a.partial && s !in a.full
    ensures forall s :: s in a.partial ==> s !in a.free && s !in a.full
    ensures forall s :: s in a.full ==> s !in a.free && s !in a.partial
  {
    forall s | s in a.slots
      ensures s in a.free ==> s !in a.partial && s !in a.full
      ensures s in a.partial ==> s !in a.free && s !in a.full
      ensures s in a.full ==> s !in a.free && s !in a.partial
    {
      InOneList(a, s);
    }
  }

  /** The links, chains and headers in memory are those of the cache `a`. */
  ghost predicate Refines(size: nat, slabs: map<nat, SlabRec>, links: Links, headers: map<nat, Obj>, a: Cache) {
    Inv(a) && a.size == size && ChainsOk(slabs, a) && ListsOk(links, a) && HeadersOk(headers, a)
  }

  lemma Together(size: nat, slabs: map<nat, SlabRec>, links: Links, headers: map<nat, Obj>, a: Cache)
    requires Inv(a) && a.size == size && ChainsOk(slabs, a) && ListsOk(links, a) && HeadersOk(headers, a)
    ensures Refines(size, slabs, links, headers, a)
  {
  }

  class SlabCache {
    const size: nat
    var slabs: map<nat, SlabRec>
    var links: Links
    var headers: map<nat, Obj>
    /** The cache as a value, and the objects handed out and not yet released. */
    ghost var view: Cache
    ghost var live: set<Obj>

    ghost predicate Ok()
      reads this
    {
      Refines(size, slabs, links, headers, view) && Tracks(view, live)
    }

    lemma InOrder()
      requires Refines(size, slabs, links, headers, view) && Tracks(view, live)
      ensures Ok()
    {
    }

    /** A cache starts with one free slab. */
    constructor (size: nat, mem: nat)
      ensures Ok() && this.size == size && view == AddSlab(Empty(size), mem) && live == {}
    {
      this.size := size;
      slabs, headers := map[], map[];
      links := Links(map[FreeHead := None, PartialHead := None, FullHead := None], map[]);
      view, live := Empty(size), {};
      new;
      AllocSlab(mem);
    }

    /** What callers hold and what the slabs count as free make 16 for each slab. */
    lemma CountsHold()
      requires Ok()
      ensures |live| + FreeTotal(slabs, slabs.Keys) == 16 * |slabs|
    {
      Conservation(view, live, slabs);
    }

    /** The slab becomes the first of its list; the other lists are as before. */
    method SlabInsertInCache(head: Node, s: nat)
      requires head in links.next
      modifies this`links
      ensures links == InsertLinks(old(links), head, s)
      ensures forall xs :: IsList(old(links), head, xs) && s !in xs ==> IsList(links, head, [s] + xs)
      ensures forall xs, other, ys ::
                IsList(old(links), head, xs) && IsList(old(links), other, ys)
                && other != head && s !in ys && Disjoint(xs, ys)
                ==> IsList(links, other, ys)
    {
      InsertKeepsLists(links, head, s, InsertLinks(links, head, s));
      var next := links.next[head];
      links := Links(links.next[head := Some(Slab(s))][Slab(s) := next], links.prev[Slab(s) := head]);
      if next.Some? {
        links := links.(prev := links.prev[next.value := Slab(s)]);
      }
    }

    /** The slab leaves its list, whose order is kept; the other lists are as before. */
    method SlabRemoveFromCache(s: nat)
      requires Slab(s) in links.next && Slab(s) in links.prev
      modifies this`links
      ensures links == RemoveLinks(old(links), s)
      ensures forall head, xs, k: nat ::
                IsList(old(links), head, xs) && k < |xs| && xs[k] == s ==> IsList(links, head, Without(xs, k))
      ensures forall head, xs, other, ys ::
                IsList(old(links), head, xs) && s in xs && IsList(old(links), other, ys)
                && other != head && Disjoint(xs, ys)
                ==> IsList(links, other, ys)
    {
      RemoveKeepsLists(links, s, RemoveLinks(links, s));
      var next, prev := links.next[Slab(s)], links.prev[Slab(s)];
      if next.Some? {
        links := links.(prev := links.prev[next.value := prev]);
      }
      links := links.(next := links.next[prev := next]);
    }

    /** A new slab at `mem`: sixteen linked free chunks, at the head of the free list. */
    method AllocSlab(mem: nat)
      requires Ok() && Fits(view, mem)
      modifies this`slabs, this`links, this`headers, this`view
      ensures Ok() && view == AddSlab(old(view), mem)
    {
      AddSlabInv(view, mem);
      var next, hs := BuildChunks(size, mem, headers, view);
      ChainAdded(slabs, view, mem, SlabRec(CAPACITY, 0, next));
      ListsAfterAdd(links, view, mem);
      slabs := slabs[mem := SlabRec(CAPACITY, 0, next)];
      headers := hs;
      SlabInsertInCache(FreeHead, mem);
      view := AddSlab(view, mem);
    }

    /** The slab allocation draws on: the first partial one, else the first free one. */
    method FirstWithRoom() returns (s: Option<nat>)
      requires Ok()
      ensures s == if HasRoom(view) then Some(Chosen(view)) else None
    {
      var head := links.next[PartialHead];
      if head.None? {
        head := links.next[FreeHead];
      }
      s := if head.Some? then Some(head.value.addr) else None;
    }

    /** Moves a slab to the head of another list. */
    method MoveSlab(s: nat, to: Node)
      requires CanMove(links, s, to)
      modifies this`links
      ensures links == MoveLinks(old(links), s, to)
    {
      SlabRemoveFromCache(s);
      SlabInsertInCache(to, s);
    }

    /** Unlinks the first chunk of a slab's chain, and moves the slab when it has become full or
        has stopped being wholly free. */
    method TakeChunk(s: nat) returns (i: nat)
      requires CanTake(slabs, links, s)
      modifies this`slabs, this`links
      ensures i == old(slabs[s].first) && slabs == TakenSlabs(old(slabs), s)
      ensures links == TakenLinks(old(links), s, old(slabs[s].numFree) - 1)
    {
      var r := slabs[s];
      i := r.first;
      slabs := slabs[s := r.(numFree := r.numFree - 1, first := r.next[r.first])];
      if r.numFree - 1 == 0 {
        MoveSlab(s, FullHead);
      } else if r.numFree - 1 == CAPACITY - 1 {
        MoveSlab(s, PartialHead);
      }
    }

    /** The slab to allocate from, built from fresh memory where no slab has room. */
    method ChooseSlab(mem: nat) returns (s: nat)
      requires Ok() && (HasRoom(view) || Fits(view, mem))
      modifies this`slabs, this`links, this`headers, this`view
      ensures Ok() && HasRoom(view) && s == Chosen(view)
      ensures view == if HasRoom(old(view)) then old(view) else AddSlab(old(view), mem)
    {
      AllocInv(view, mem);
      var first := FirstWithRoom();
      if first.None? {
        AllocSlab(mem);
        first := FirstWithRoom();
      }
      s := first.value;
    }

    /** Hands out the lowest free chunk of the chosen slab, which no caller holds. */
    method AllocFromCache(mem: nat) returns (addr: nat)
      requires Ok() && (HasRoom(view) || Fits(view, mem))
      modifies this
      ensures Ok()
      ensures HasRoom(old(view)) ==> Chosen(old(view)) in old(view).slots
      ensures var (b, o) := Alloc(old(view), mem);
              view == b && addr == ObjAddr(size, o) && o !in old(live) && live == old(live) + {o}
    {
      AllocTracks(view, live, mem);
      ghost var (b, o) := Alloc(view, mem);
      var s := ChooseSlab(mem);
      TakeRefines(size, slabs, links, headers, view, s, b, o);
      var i := TakeChunk(s);
      view, live := b, live + {o};
      InOrder();
      addr := ObjAddr(size, Obj(s, i));
    }

    /** Moves a slab when it has stopped being full or has become wholly free. */
    method MoveAfterFree(s: nat, numFree: nat, ghost o: Obj, ghost b: Cache)
      requires Inv(view) && IsLive(view, o) && s == o.slab && ListsOk(links, view)
      requires numFree == |view.slots[s]| + 1 && b == Free(view, o)
      modifies this`links
      ensures ListsOk(links, b)
    {
      FreeListsRefine(links, view, o);
      if numFree == 1 {
        MoveSlab(s, PartialHead);
      } else if numFree == CAPACITY {
        MoveSlab(s, FreeHead);
      }
    }

    /** Links a chunk back into its slab's chain. */
    method LinkBack(s: nat, slot: nat, ghost b: Cache)
      requires IsLive(view, Obj(s, slot)) && ChainsOk(slabs, view)
      requires b.slots == view.slots[s := view.slots[s] + {slot}]
      modifies this`slabs
      ensures ChainsOk(slabs, b)
    {
      var r := ReturnChunk(size, s, slabs[s], slot, view.slots[s]);
      ChainReplaced(slabs, view, b, s, r);
      slabs := slabs[s := r];
    }

    /** Links a live chunk back once its slab is in the list it will belong to. */
    method PutChunk(s: nat, slot: nat, ghost b: Cache)
      requires IsLive(view, Obj(s, slot)) && ChainsOk(slabs, view)
      requires b.size == size && b.slots == view.slots[s := view.slots[s] + {slot}]
      requires Inv(b) && ListsOk(links, b) && HeadersOk(headers, b)
      modifies this`slabs
      ensures Refines(size, slabs, links, headers, b)
    {
      LinkBack(s, slot, b);
      Together(size, slabs, links, headers, b);
    }

    /** Releases the object a caller holds at `addr`.  A null pointer is ignored. */
    method SlabFree(addr: nat, ghost o: Obj)
      requires Ok() && (addr != 0 ==> o in live && addr == ObjAddr(size, o))
      modifies this
      ensures Ok()
      ensures addr == 0 ==> view == old(view) && live == old(live)
      ensures addr != 0 ==> o.slab in old(view).slots && view == Free(old(view), o) && live == old(live) - {o}
    {
      if addr == 0 {
        return;
      }
      HeaderOf(headers, view, o, addr);
      FreeTracks(view, live, o);
      ghost var b := Free(view, o);
      FreedSlots(view, o, b);
      HeadersSame(headers, view, b);
      var chunk := headers[addr - CHUNK_HEADER];
      MoveAfterFree(chunk.slab, slabs[chunk.slab].numFree + 1, o, b);
      PutChunk(chunk.slab, chunk.slot, b);
      view, live := b, live - {o};
      InOrder();
    }
  }

  predicate CanMove(l: Links, s: nat, to: Node) {
    Slab(s) in l.next && Slab(s) in l.prev && to in RemoveLinks(l, s).next
  }

  function MoveLinks(l: Links, s: nat, to: Node): Links
    requires CanMove(l, s, to)
  {
    InsertLinks(RemoveLinks(l, s), to, s)
  }

  lemma HeaderOf(headers: map<nat, Obj>, a: Cache, o: Obj, addr: nat)
    requires HeadersOk(headers, a) && IsLive(a, o) && addr == ObjAddr(a.size, o)
    ensures addr >= CHUNK_HEADER && addr - CHUNK_HEADER in headers && headers[addr - CHUNK_HEADER] == o
  {
    assert HeaderAt(headers, a.size, o);
  }

  lemma TakenSlots(a: Cache, s: nat, b: Cache, o: Obj)
    requires HasRoom(a) && s == Chosen(a) && s in a.slots && (b, o) == Take(a)
    ensures o == Obj(s, NextFree(a.slots[s], 0)) && b.slots == a.slots[s := a.slots[s] - {o.slot}]
  {
  }

  /** What taking a chunk needs of the slab and its links. */
  predicate CanTake(slabs: map<nat, SlabRec>, l: Links, s: nat) {
    && s in slabs && |slabs[s].next| == CAPACITY && slabs[s].first < CAPACITY && slabs[s].numFree > 0
    && (slabs[s].numFree == 1 ==> CanMove(l, s, FullHead))
    && (slabs[s].numFree == CAPACITY ==> CanMove(l, s, PartialHead))
  }

  function TakenSlabs(slabs: map<nat, SlabRec>, s: nat): map<nat, SlabRec>
    requires s in slabs && |slabs[s].next| == CAPACITY && slabs[s].first < CAPACITY && slabs[s].numFree > 0
  {
    var r := slabs[s];
    slabs[s := r.(numFree := r.numFree - 1, first := r.next[r.first])]
  }

  function TakenLinks(l: Links, s: nat, n: int): Links
    requires n == 0 ==> CanMove(l, s, FullHead)
    requires n == CAPACITY - 1 ==> CanMove(l, s, PartialHead)
  {
    if n == 0 then MoveLinks(l, s, FullHead) else if n == CAPACITY - 1 then MoveLinks(l, s, PartialHead) else l
  }

  /** The pointer updates of an allocation refine the specification's. */
  lemma TakeRefines(size: nat, slabs: map<nat, SlabRec>, l: Links, headers: map<nat, Obj>,
                    a: Cache, s: nat, b: Cache, o: Obj)
    requires Refines(size, slabs, l, headers, a)
    requires HasRoom(a) && s == Chosen(a) && s in a.slots && (b, o) == Take(a)
    ensures CanTake(slabs, l, s) && o == Obj(s, slabs[s].first)
    ensures Refines(size, TakenSlabs(slabs, s), TakenLinks(l, s, slabs[s].numFree - 1), headers, b)
  {
    CanTakeFirst(slabs, l, a, s, b, o);
    TakeHeaders(headers, a, b);
    Together(size, TakenSlabs(slabs, s), TakenLinks(l, s, slabs[s].numFree - 1), headers, b);
  }

  lemma TakeHeaders(headers: map<nat, Obj>, a: Cache, b: Cache)
    requires Inv(a) && HeadersOk(headers, a) && HasRoom(a) && Chosen(a) in a.slots && b == Take(a).0
    ensures Inv(b) && b.size == a.size && HeadersOk(headers, b)
  {
    TakeInv(a);
    HeadersSame(headers, a, b);
  }

  lemma CanTakeFirst(slabs: map<nat, SlabRec>, l: Links, a: Cache, s: nat, b: Cache, o: Obj)
    requires Inv(a) && ChainsOk(slabs, a) && ListsOk(l, a)
    requires HasRoom(a) && s == Chosen(a) && s in a.slots && (b, o) == Take(a)
    ensures CanTake(slabs, l, s) && o == Obj(s, slabs[s].first)
    ensures ChainsOk(TakenSlabs(slabs, s), b) && ListsOk(TakenLinks(l, s, slabs[s].numFree - 1), b)
  {
    TakeChainRefines(slabs, a, s, b, o);
    TakeListsRefine(l, a);
  }

  /** What taking a slot does to the chosen slab's chain. */
  lemma TakeChainRefines(slabs: map<nat, SlabRec>, a: Cache, s: nat, b: Cache, o: Obj)
    requires Inv(a) && HasRoom(a) && ChainsOk(slabs, a)
    requires s == Chosen(a) && s in a.slots && (b, o) == Take(a)
    ensures s in slabs
    ensures var r := slabs[s];
            && r.first < CAPACITY && |r.next| == CAPACITY && r.numFree == |a.slots[s]| > 0 && o == Obj(s, r.first)
            && ChainsOk(slabs[s := r.(numFree := r.numFree - 1, first := r.next[r.first])], b)
  {
    TakenSlots(a, s, b, o);
    ChosenPlaced(a);
    var r := slabs[s];
    SomeSlotFree(a.slots[s]);
    TakeChain(r, a.slots[s]);
    ChainReplaced(slabs, a, b, s, r.(numFree := r.numFree - 1, first := r.next[r.first]));
  }

  lemma HeadersSame(headers: map<nat, Obj>, a: Cache, b: Cache)
    requires HeadersOk(headers, a) && b.size == a.size && b.slots.Keys == a.slots.Keys
    ensures HeadersOk(headers, b)
  {
    forall o: Obj | o.slab in b.slots && o.slot < CAPACITY ensures HeaderAt(headers, b.size, o) {
      assert o.slab in a.slots;
      assert HeaderAt(headers, a.size, o);
    }
  }

  lemma TakeListsRefine(l: Links, a: Cache)
    requires Inv(a) && HasRoom(a) && ListsOk(l, a)
    ensures Chosen(a) in a.slots
    ensures var (b, o) := Take(a);
            var s, n := Chosen(a), |a.slots[Chosen(a)]| - 1;
            && (n == 0 ==> CanMove(l, s, FullHead) && ListsOk(MoveLinks(l, s, FullHead), b))
            && (n == CAPACITY - 1 ==> CanMove(l, s, PartialHead) && ListsOk(MoveLinks(l, s, PartialHead), b))
            && (n != 0 && n != CAPACITY - 1 ==> ListsOk(l, b))
  {
    ListsApart(a);
    TakeMoves(a);
    var n := |a.slots[Chosen(a)]| - 1;
    if n == 0 {
      ListsAfterMove(l, PartialHead, a.partial, 0, FullHead, a.full, FreeHead, a.free);
    } else if n == CAPACITY - 1 {
      ListsAfterMove(l, FreeHead, a.free, 0, PartialHead, a.partial, FullHead, a.full);
    }
  }

  lemma FreeListsRefine(l: Links, a: Cache, o: Obj)
    requires Inv(a) && IsLive(a, o) && ListsOk(l, a)
    ensures var b := Free(a, o);
            var s, n := o.slab, |a.slots[o.slab]| + 1;
            && (n == 1 ==> CanMove(l, s, PartialHead) && ListsOk(MoveLinks(l, s, PartialHead), b))
            && (n == CAPACITY ==> CanMove(l, s, FreeHead) && ListsOk(MoveLinks(l, s, FreeHead), b))
            && (n != 1 && n != CAPACITY ==> ListsOk(l, b))
  {
    ListsApart(a);
    FreeMoves(a, o);
    var s, n := o.slab, |a.slots[o.slab]| + 1;
    if n == 1 {
      ListsAfterMove(l, FullHead, a.full, IndexOf(a.full, s), PartialHead, a.partial, FreeHead, a.free);
    } else if n == CAPACITY {
      ListsAfterMove(l, PartialHead, a.partial, IndexOf(a.partial, s), FreeHead, a.free, FullHead, a.full);
    }
  }

  lemma ChainReplaced(slabs: map<nat, SlabRec>, a: Cache, b: Cache, s: nat, r: SlabRec)
    requires ChainsOk(slabs, a) && s in slabs && b.slots.Keys == a.slots.Keys
    requires forall t :: t in a.slots && t != s ==> b.slots[t] == a.slots[t]
    requires ChainOk(r, b.slots[s])
    ensures ChainsOk(slabs[s := r], b)
  {
  }

  /** Which lists change when a slot is taken, by the slab's count. */
  lemma TakeMoves(a: Cache)
    requires Inv(a) && HasRoom(a)
    ensures Chosen(a) in a.slots
    ensures var (b, o) := Take(a);
            var s, n := Chosen(a), |a.slots[Chosen(a)]| - 1;
            && (n == 0 ==>
                  && a.partial != [] && a.partial[0] == s
                  && b.partial == Without(a.partial, 0) && b.full == [s] + a.full && b.free == a.free)
            && (n == CAPACITY - 1 ==>
                  && a.free != [] && a.free[0] == s
                  && b.free == Without(a.free, 0) && b.partial == [s] + a.partial && b.full == a.full)
            && (n != 0 && n != CAPACITY - 1 ==> b.free == a.free && b.partial == a.partial && b.full == a.full)
  {
    ChosenPlaced(a);
    AllSlotsCount();
    var s := Chosen(a);
    SomeSlotFree(a.slots[s]);
    assert |a.slots[s] - {NextFree(a.slots[s], 0)}| == |a.slots[s]| - 1;
    InOneList(a, s);
    if a.partial != [] {
      assert s in a.partial;
    }
  }

  lemma FreeMoves(a: Cache, o: Obj)
    requires Inv(a) && IsLive(a, o)
    ensures var b := Free(a, o);
            var s, n := o.slab, |a.slots[o.slab]| + 1;
            && (n == 1 ==>
                  && s in a.full && b.full == Without(a.full, IndexOf(a.full, s))
                  && b.partial == [s] + a.partial && b.free == a.free)
            && (n == CAPACITY ==>
                  && s in a.partial && b.partial == Without(a.partial, IndexOf(a.partial, s))
                  && b.free == [s] + a.free && b.full == a.full)
            && (n != 1 && n != CAPACITY ==> b.free == a.free && b.partial == a.partial && b.full == a.full)
  {
    var s := o.slab;
    assert Placed(a, s);
    assert |a.slots[s] + {o.slot}| == |a.slots[s]| + 1;
    FullSetIsAll(a.slots[s] + {o.slot});
  }

  /** Moving a slab from one list to the head of another leaves the third as it is. */
  lemma ListsAfterMove(l: Links, from: Node, xs: seq<nat>, k: nat, to: Node, ys: seq<nat>, other: Node, zs: seq<nat>)
    requires IsList(l, from, xs) && IsList(l, to, ys) && IsList(l, other, zs) && k < |xs|
    requires from != to && from != other && to != other
    requires forall y :: y in ys ==> y !in xs && y !in zs
    requires forall z :: z in zs ==> z !in xs && z !in ys
    ensures Slab(xs[k]) in l.next && Slab(xs[k]) in l.prev
    ensures to in RemoveLinks(l, xs[k]).next
    ensures var m := InsertLinks(RemoveLinks(l, xs[k]), to, xs[k]);
            IsList(m, from, Without(xs, k)) && IsList(m, to, [xs[k]] + ys) && IsList(m, other, zs)
  {
    RemoveList(l, from, xs, k);
    RemoveOther(l, from, xs, k, to, ys);
    RemoveOther(l, from, xs, k, other, zs);
    var m := RemoveLinks(l, xs[k]);
    assert xs[k] in xs;
    WithoutMembers(xs, k);
    InsertList(m, to, ys, xs[k]);
    InsertOther(m, to, ys, xs[k], from, Without(xs, k));
    InsertOther(m, to, ys, xs[k], other, zs);
  }

  /** Lays out the chunks of a slab at `mem`: each is linked to the next and names its slab. */
  method BuildChunks(size: nat, mem: nat, headers: map<nat, Obj>, ghost a: Cache)
    returns (next: seq<nat>, hs: map<nat, Obj>)
    requires HeadersOk(headers, a) && Fits(a, mem) && a.size == size
    ensures |next| == CAPACITY && forall k :: 0 <= k < CAPACITY ==> next[k] == k + 1
    ensures HeadersOk(hs, AddSlab(a, mem))
  {
    next, hs := [], headers;
    for i := 0 to CAPACITY
      invariant |next| == i && forall k :: 0 <= k < i ==> next[k] == k + 1
      invariant HeadersOk(hs, a)
      invariant forall k :: 0 <= k < i ==> HeaderAt(hs, size, Obj(mem, k))
    {
      next := next + [i + 1];
      HeadersKept(hs, a, mem, i);
      var hs' := hs[ChunkAddr(size, mem, i) := Obj(mem, i)];
      forall k | 0 <= k < i ensures HeaderAt(hs', size, Obj(mem, k)) {
        assert HeaderAt(hs, size, Obj(mem, k));
        ChunkOrder(size, mem, k, i);
      }
      hs := hs';
    }
    forall o: Obj | o.slab in AddSlab(a, mem).slots && o.slot < CAPACITY ensures HeaderAt(hs, size, o) {
      if o.slab == mem {
        assert HeaderAt(hs, size, Obj(mem, o.slot));
      } else {
        assert HeaderAt(hs, a.size, o);
      }
    }
  }

  lemma ChainAdded(slabs: map<nat, SlabRec>, a: Cache, mem: nat, r: SlabRec)
    requires ChainsOk(slabs, a) && |r.next| == CAPACITY && r.numFree == CAPACITY && r.first == 0
    requires forall k :: 0 <= k < CAPACITY ==> r.next[k] == k + 1
    ensures ChainsOk(slabs[mem := r], AddSlab(a, mem))
  {
    FreshChain(r.next);
  }

  lemma ListsAfterAdd(l: Links, a: Cache, mem: nat)
    requires Inv(a) && ListsOk(l, a) && mem !in a.slots
    ensures ListsOk(InsertLinks(l, FreeHead, mem), AddSlab(a, mem))
  {
    ListsApart(a);
    InsertList(l, FreeHead, a.free, mem);
    InsertOther(l, FreeHead, a.free, mem, PartialHead, a.partial);
    InsertOther(l, FreeHead, a.free, mem, FullHead, a.full);
  }

  lemma FreshChain(next: seq<nat>)
    requires |next| == CAPACITY && forall k :: 0 <= k < CAPACITY ==> next[k] == k + 1
    ensures ChainOk(SlabRec(CAPACITY, 0, next), AllSlots())
  {
    AllSlotsCount();
  }

  /** A chunk header of a new slab overwrites no other. */
  lemma HeadersKept(hs: map<nat, Obj>, a: Cache, mem: nat, i: nat)
    requires HeadersOk(hs, a) && Fits(a, mem) && i < CAPACITY
    ensures HeadersOk(hs[ChunkAddr(a.size, mem, i) := Obj(mem, i)], a)
  {
    var hs' := hs[ChunkAddr(a.size, mem, i) := Obj(mem, i)];
    forall o: Obj | o.slab in a.slots && o.slot < CAPACITY ensures HeaderAt(hs', a.size, o) {
      assert HeaderAt(hs, a.size, o);
      InsideSlab(a.size, o);
      InsideSlab(a.size, Obj(mem, i));
    }
  }
}
