/** The buddy allocator itself: the in-place updates of `mem/buddy_frame_alloc.c`, each proved
    against the functions of `BuddySpec`. */
module BuddyAllocator {
  import opened Basics
  import opened BuddyBlocks
  import opened BuddyMaps
  import opened BuddySpec
  import opened BuddyInvariant
  import opened BuddyTheorems
  import opened BuddyRelease
  import opened BuddyRequests

  method GetBuddyOrder(nframes: nat) returns (order: nat)
    ensures order == BuddyOrder(nframes)
    ensures order <= TOP
    ensures nframes <= MAX_BUDDY_NFRAMES ==> nframes <= Pow2(order)
    ensures forall p :: 0 <= p < order ==> nframes > Pow2(p)
  {
    BuddyOrderLeast(nframes);
    if nframes > MAX_BUDDY_NFRAMES {
      return MAX_ORDER - 1;
    }
    order := 0;
    while order < MAX_ORDER
      invariant order <= MAX_ORDER
      invariant order <= TOP ==> OrderFrom(nframes, order) == BuddyOrder(nframes)
      invariant order == MAX_ORDER ==> BuddyOrder(nframes) == TOP
    {
      if nframes <= Pow2(order) {
        return;
      }
      order := order + 1;
    }
    order := MAX_ORDER - 1;
  }

  class Buddy {
    const first: nat
    const tops: nat
    var lists: seq<seq<nat>>
    var numFree: seq<nat>
    var maps: seq<set<nat>>
    /** The blocks handed out and not yet released. */
    ghost var live: set<Block>

    ghost function View(): State
      reads this
    {
      State(first, tops, lists, numFree, maps)
    }

    ghost predicate Ok()
      reads this
    {
      Valid(View(), live)
    }

    /** `memStart` is a multiple of the top block size, as 0xD0000000 is. */
    constructor (memStart: nat, memLimit: nat)
      requires memStart % Size(TOP) == 0 && memStart <= memLimit
      ensures Ok() && live == {}
      ensures View() == Create(memStart / Size(TOP), (memLimit - memStart) / Size(TOP))
      ensures forall a: nat :: Managed(View(), a) ==> memStart <= a < memLimit
    {
      var top := Div(memLimit - memStart, Size(TOP));
      first := Div(memStart, Size(TOP));
      tops := top;
      live := {};
      var fl: seq<nat> := [];
      AlignedIsDivisible(TOP, memStart);
      BlkIsQuotient(TOP, memStart);
      for i := 0 to top
        invariant |fl| == i
        invariant forall j :: 0 <= j < i ==> fl[j] == Base(TOP, Div(memStart, Size(TOP)) + j)
      {
        BaseIsMultiple(TOP, Div(memStart, Size(TOP)) + i);
        BaseIsMultiple(TOP, Div(memStart, Size(TOP)));
        DistributeSum(Div(memStart, Size(TOP)), i, Size(TOP));
        fl := fl + [memStart + i * Size(TOP)];
      }
      lists := [[], [], [], [], [], [], [], [], [], [], fl];
      numFree := [0, 0, 0, 0, 0, 0, 0, 0, 0, 0, top];
      maps := [{}, {}, {}, {}, {}, {}, {}, {}, {}, {}, {}];
      new;
      assert fl == TopBlocks(first, tops);
      CreatedState(View(), fl);
      CreateValid(first, tops);
      forall a: nat | Managed(View(), a) ensures memStart <= a < memLimit {
        ManagedIsInterval(View(), a);
        TopsFit(memStart, memLimit, first, tops);
      }
    }

    /** Lists a block: an aligned address adds exactly its block to the free ones. */
    method InsertBuddy(order: nat, addr: nat)
      requires Shape(View()) && order <= TOP
      modifies this
      ensures View() == Insert(old(View()), order, addr) && live == old(live)
      ensures Aligned(order, addr) ==> OneMoreFree(old(View()), View(), order, Blk(order, addr))
      ensures Aligned(order, addr)
              && old(Listed(View()) && InRange(View(), order, Blk(order, addr)) && !IsFree(View(), order, Blk(order, addr)))
              ==> Listed(View())
    {
      if Aligned(order, addr) {
        InsertMeans(View(), order, addr);
      }
      lists := lists[order := [addr] + lists[order]];
      numFree := numFree[order := numFree[order] + 1];
    }

    /** The source follows the link of the entry it stops at, so one must cover the address. */
    method RemoveFreeFrame(order: nat, addr: nat)
      requires Shape(View()) && order <= TOP
      requires numFree[order] != 0 ==> FindCovering(lists[order], order, addr) < |lists[order]|
      modifies this
      ensures View() == RemoveFrame(old(View()), order, addr) && live == old(live)
    {
      if numFree[order] == 0 {
        return;
      }
      var fl := lists[order];
      var i := 0;
      while i < |fl| && !(fl[i] + Size(order) > addr && fl[i] <= addr)
        invariant i <= |fl|
        invariant FindCovering(fl, order, addr) == i + FindCovering(fl[i..], order, addr)
      {
        assert fl[i..][1..] == fl[i + 1..];
        i := i + 1;
      }
      lists := lists[order := fl[..i] + fl[i + 1..]];
      numFree := numFree[order := numFree[order] - 1];
    }

    /** Takes the head off a list: exactly its block stops being free. */
    method RemoveFreeHead(order: nat)
      requires Shape(View()) && order <= TOP
      modifies this
      ensures View() == RemoveHead(old(View()), order) && live == old(live)
      ensures old(Listed(View())) ==> Listed(View())
      ensures old(Listed(View()) && lists[order] == []) ==> View() == old(View())
      ensures old(Listed(View()) && lists[order] != []) ==>
                OneLessFree(old(View()), View(), order, Blk(order, old(lists[order])[0]))
    {
      if Listed(View()) {
        RemoveHeadMeans(View(), order);
      }
      if numFree[order] == 0 {
        return;
      }
      lists := lists[order := if lists[order] == [] then [] else lists[order][1..]];
      numFree := numFree[order := numFree[order] - 1];
    }

    method SetFrameUsed(order: nat, addr: nat)
      requires Shape(View()) && order <= TOP
      modifies this
      ensures View() == SetUsed(old(View()), order, addr) && live == old(live)
    {
      MapIdIsBlk(order, addr);
      maps := maps[order := maps[order] + {BitNo(AddrToMapId(order, addr))}];
    }

    method SetFrameUnused(order: nat, addr: nat)
      requires Shape(View()) && order <= TOP
      modifies this
      ensures View() == SetUnused(old(View()), order, addr) && live == old(live)
    {
      MapIdIsBlk(order, addr);
      maps := maps[order := maps[order] - {BitNo(AddrToMapId(order, addr))}];
    }

    method BuddySlice(addr: nat, start: nat, target: nat) returns (res: nat)
      requires Shape(View()) && target < start <= TOP
      modifies this
      ensures View() == Slice(old(View()), addr, start, target) && live == old(live)
      ensures res == addr
      decreases start
    {
      SetFrameUsed(start, addr);
      InsertBuddy(start - 1, addr + Size(start) / 2);
      if start - 1 > target {
        res := BuddySlice(addr, start - 1, target);
      } else {
        SetFrameUsed(target, addr);
        res := addr;
      }
    }

    /** Takes the head of the list of order `order` itself. */
    method TakeHead(order: nat) returns (addr: nat)
      requires Shape(View()) && order <= TOP && numFree[order] != 0 && lists[order] != []
      modifies this
      ensures addr == old(lists[order][0]) && live == old(live)
      ensures View() == SetUsed(RemoveHead(old(View()), order), order, addr)
    {
      addr := lists[order][0];
      RemoveFreeHead(order);
      SetFrameUsed(order, addr);
    }

    /** Takes the head of the list of order `i` and slices it down to `order`. */
    method TakeSlice(i: nat, order: nat) returns (addr: nat)
      requires Shape(View()) && order < i <= TOP && lists[i] != []
      modifies this
      ensures addr == old(lists[i][0]) && live == old(live)
      ensures View() == Slice(RemoveHead(old(View()), i), addr, i, order)
    {
      var head := lists[i][0];
      RemoveFreeHead(i);
      addr := BuddySlice(head, i, order);
    }

    /** The free-list search of one request, without the record of what is live. */
    method TakeFrames(nframes: nat) returns (r: Option<nat>)
      requires Shape(View()) && HeadReadable(View(), BuddyOrder(nframes))
      modifies this
      ensures (View(), r) == Alloc(old(View()), nframes) && live == old(live)
    {
      var order := GetBuddyOrder(nframes);
      if numFree[order] != 0 {
        var addr := TakeHead(order);
        return Some(addr);
      }
      var i := order + 1;
      while i < MAX_ORDER
        invariant order < i <= MAX_ORDER && Shape(View()) && live == old(live)
        invariant AllocAbove(View(), order, i) == Alloc(old(View()), nframes)
      {
        if numFree[i] != 0 {
          if lists[i] == [] {
            numFree := numFree[i := 0];
          } else {
            var addr := TakeSlice(i, order);
            return Some(addr);
          }
        }
        i := i + 1;
      }
      return None;
    }

    /** One request of at most one top block. */
    method AllocFramesMaxOrder(nframes: nat) returns (r: Option<nat>)
      requires Ok()
      modifies this
      ensures Ok()
      ensures HeadReadable(old(View()), BuddyOrder(nframes))
      ensures (View(), r) == Alloc(old(View()), nframes)
      ensures r.None? ==> View() == old(View()) && live == old(live)
      ensures r.None? <==>
                forall k :: InRange(old(View()), BuddyOrder(nframes), k) ==>
                              HasLive(old(live), BuddyOrder(nframes), k)
      ensures r.Some? ==>
                var o := BuddyOrder(nframes);
                && Aligned(o, r.value) && InRange(View(), o, Blk(o, r.value))
                && live == old(live) + {Block(o, Blk(o, r.value))}
                && forall x :: Blk(o, x) == Blk(o, r.value) ==> !LiveAt(old(live), x)
    {
      ghost var s := View();
      AllocValid(s, live, nframes);
      AllocFailsIff(s, live, nframes);
      AllocRange(s, live, nframes);
      r := TakeFrames(nframes);
      if r.Some? {
        ghost var o := BuddyOrder(nframes);
        live := live + {Block(o, Blk(o, r.value))};
      }
    }

    /** The next piece of a request that began at state `s0` with `live0` live. */
    method AllocPiece(nframes: nat, addrs: seq<nat>, ghost s0: State, ghost live0: set<Block>)
      returns (r: Option<nat>)
      requires Ok() && s0.first == first && s0.tops == tops
      requires |addrs| < Requests(nframes) && Answered(s0, live0, live, nframes, addrs)
      modifies this
      ensures Ok()
      ensures r.Some? ==> Answered(s0, live0, live, nframes, addrs + [r.value])
      ensures r.None? ==> live == old(live) && NoPlace(s0, live0, nframes)
    {
      ghost var before := live;
      RangesAgree(s0, View());
      r := AllocFramesMaxOrder(RequestSize(nframes, |addrs|));
      RangesAgree(s0, View());
      if r.Some? {
        Answer(s0, live0, before, nframes, addrs, r.value, RequestOrder(nframes, |addrs|));
      } else {
        NeverRoom(s0, live0, before, nframes, addrs);
      }
    }

    /** Requests beyond one top block are served in pieces, each a fresh aligned block in a top
        block of its own.  The request succeeds exactly if there is room for all its pieces; a
        failure keeps the pieces already obtained. */
    method AllocFrames(nframes: nat) returns (ok: bool, addrs: seq<nat>)
      requires Ok()
      modifies this
      ensures Ok()
      ensures Answered(old(View()), old(live), live, nframes, addrs)
      ensures ok <==> |addrs| == Requests(nframes)
      ensures ok <==> !NoPlace(old(View()), old(live), nframes)
      ensures ok ==> HoldsTightly(nframes, FramesIn(live - old(live))) && |live - old(live)| == |addrs|
    {
      addrs := [];
      var limit := Requests(nframes);
      assert RequestBlocks(nframes, addrs) == {};
      while |addrs| < limit
        invariant Ok() && Answered(old(View()), old(live), live, nframes, addrs)
      {
        var r := AllocPiece(nframes, addrs, old(View()), old(live));
        if r.None? {
          return false, addrs;
        }
        addrs := addrs + [r.value];
      }
      ServedTightly(old(View()), old(live), live, nframes, addrs);
      ok := true;
    }

    /** Where the sibling's bit and block are. */
    method FindBuddy(order: nat, addr: nat) returns (bit: nat, buddyAddr: nat)
      requires order <= TOP
      ensures bit == Sibling(Blk(order, addr)) && buddyAddr == Base(order, bit)
    {
      BuddyIsSibling(order, addr);
      var buddyMap := BuddyFrame(AddrToMapId(order, addr));
      bit, buddyAddr := BitNo(buddyMap), MapToAddr(order, buddyMap);
    }

    /** Releases as the source does: the address is passed up unchanged by every merge.
        `held` are the blocks in use, among them the one being released. */
    method BuddyCoalesce(order: nat, addr: nat, ghost held: set<Block>)
      requires order <= TOP && Valid(View(), held) && Block(order, Blk(order, addr)) in held
      modifies this
      ensures View() == Coalesce(AsWritten, old(View()), order, addr) && live == old(live)
      decreases TOP - order
    {
      var bit, buddyAddr := FindBuddy(order, addr);
      ghost var k, s := Blk(order, addr), View();
      CoalesceLevel(AsWritten, s, order, addr);
      SetFrameUnused(order, addr);
      if order < TOP && bit !in maps[order] {
        MergePossible(s, held, order, k);
        RemoveFreeFrame(order, buddyAddr);
        BuddyCoalesce(order + 1, addr, held - {Block(order, k)} + {Block(order + 1, k / 2)});
      } else {
        InsertBuddy(order, addr);
      }
    }

    /** The block's order is found by climbing to the first set bit. */
    method FreeFramesRec(order: nat, addr: nat, ghost b: Block)
      requires order <= b.order <= TOP && Ok() && b in live && addr == Base(b.order, b.num)
      modifies this
      ensures View() == FreeRec(AsWritten, old(View()), order, addr) && live == old(live)
      decreases b.order - order
    {
      MapIdIsBlk(order, addr);
      BlkOfBase(b.order, b.num);
      if BitNo(AddrToMapId(order, addr)) in maps[order] {
        FirstSetBit(View(), live, b, order);
        BuddyCoalesce(order, addr, live);
        return;
      }
      FreeFramesRec(order + 1, addr, b);
    }

    /** Releases a live block.  The state stays valid exactly when the address is aligned to the
        order its merging reaches. */
    method FreeFrames(addr: nat, nframes: nat, ghost b: Block)
      requires Ok() && b in live && addr == Base(b.order, b.num) && nframes <= Pow2(b.order)
      modifies this
      ensures View() == BuddySpec.FreeFrames(AsWritten, old(View()), addr, nframes)
      ensures live == old(live) - {b}
      ensures Ok() <==> Aligned(MergedOrder(old(View()), b.order, b.num), addr)
    {
      FreeAsWrittenIff(View(), live, b, nframes);
      OrderFits(nframes, b.order);
      var order := GetBuddyOrder(nframes);
      FreeFramesRec(order, addr, b);
      live := live - {b};
    }
  }

  /** The entry a merge looks for is listed, and the merge keeps the invariant. */
  lemma MergePossible(s: State, live: set<Block>, o: nat, k: nat)
    requires Valid(s, live) && Block(o, k) in live && o < TOP && Sibling(k) !in s.bits[o]
    ensures FindCovering(s.lists[o], o, Base(o, Sibling(k))) < |s.lists[o]|
    ensures Valid(Merge(s, o, k), live - {Block(o, k)} + {Block(o + 1, k / 2)})
    ensures Block(o + 1, k / 2) !in live
  {
    ClearSiblingIsFree(s, live, o, k);
    assert ListOk(s, o);
    FindsListed(s, o, Sibling(k));
    MergeValid(s, live, o, k);
  }

  lemma FirstSetBit(s: State, live: set<Block>, b: Block, order: nat)
    requires Valid(s, live) && b in live && order <= b.order
    requires Blk(order, Base(b.order, b.num)) in s.bits[order]
    ensures order == b.order
  {
    BlkOfBase(b.order, b.num);
    assert InRange(s, b.order, b.num);
    if order < b.order {
      AbsentBelow(s, live, Base(b.order, b.num), b.order, order);
    }
  }

  lemma DistributeSum(x: nat, i: nat, d: nat)
    ensures (x + i) * d == x * d + i * d
  {
  }

  lemma CreatedState(s: State, fl: seq<nat>)
    requires Shape(s) && fl == TopBlocks(s.first, s.tops)
    requires s.lists == [[], [], [], [], [], [], [], [], [], [], fl]
    requires s.numFree == [0, 0, 0, 0, 0, 0, 0, 0, 0, 0, s.tops]
    requires s.bits == [{}, {}, {}, {}, {}, {}, {}, {}, {}, {}, {}]
    ensures s == Create(s.first, s.tops)
  {
    var t := Create(s.first, s.tops);
    assert s.lists == t.lists;
    assert s.numFree == t.numFree;
    assert s.bits == t.bits;
  }

  lemma TopsFit(memStart: nat, memLimit: nat, first: nat, tops: nat)
    requires memStart <= memLimit && memStart == Base(TOP, first)
    requires tops == (memLimit - memStart) / Size(TOP)
    ensures Base(TOP, first + tops) <= memLimit
  {
    BaseIsMultiple(TOP, first);
    BaseIsMultiple(TOP, first + tops);
    DistributeSum(first, tops, Size(TOP));
  }

  lemma AllocRange(s: State, live: set<Block>, n: nat)
    requires Valid(s, live)
    ensures HeadReadable(s, BuddyOrder(n))
    ensures var (t, r) := Alloc(s, n);
            r.Some? ==> InRange(t, BuddyOrder(n), Blk(BuddyOrder(n), r.value))
  {
    AllocValid(s, live, n);
  }
}
