/** The buddy allocator's guarantees: what allocation and release keep, when they fail, what a
    release undoes, and how the free blocks and the live blocks tile the managed range. */
module BuddyTheorems {
  import opened Basics
  import opened BuddyBlocks
  import opened BuddySpec
  import opened BuddyInvariant

  // ---- creation ----

  lemma CreateValid(first: nat, tops: nat)
    ensures Valid(Create(first, tops), {})
  {
    var s := Create(first, tops);
    forall i | 0 <= i < tops
      ensures Aligned(TOP, s.lists[TOP][i]) && Blk(TOP, s.lists[TOP][i]) == first + i
    {
      BlkOfBase(TOP, first + i);
    }
    assert ListOk(s, TOP);
    forall o: nat, k: nat | o <= TOP && InRange(s, o, k) ensures NodeOk(s, {}, o, k) {
      if o == TOP {
        assert s.lists[TOP][k - first] == Base(TOP, k);
      }
    }
  }

  // ---- allocation ----

  lemma InsertIsSplit(s: State, o: nat, k: nat, a: nat, half: nat)
    requires Shape(s) && 0 < o <= TOP && Blk(o - 1, a) == 2 * k && half == Base(o - 1, 2 * k + 1)
    ensures SetUsed(Insert(s, o - 1, half), o - 1, a) == Split(s, o, k)
  {
  }

  /** Where the halves of the block starting at `a` lie. */
  lemma HalvesOf(o: nat, k: nat, a: nat)
    requires o > 0 && a == Base(o, k)
    ensures Blk(o - 1, a) == 2 * k && a == Base(o - 1, 2 * k)
    ensures Middle(o, a) == Base(o - 1, 2 * k + 1)
  {
    SecondHalf(o, k);
    BlkOfBase(o - 1, 2 * k);
  }

  /** One level of slicing, when `s1` already has the block's bit set. */
  lemma SliceLevel(s1: State, live: set<Block>, o: nat, k: nat, a: nat, half: nat)
    requires Valid(s1, live) && Block(o, k) in live && 0 < o <= TOP
    requires Blk(o - 1, a) == 2 * k && half == Base(o - 1, 2 * k + 1)
    ensures Valid(SetUsed(Insert(s1, o - 1, half), o - 1, a), live - {Block(o, k)} + {Block(o - 1, 2 * k)})
    ensures Block(o - 1, 2 * k) !in live
  {
    InsertIsSplit(s1, o, k, a, half);
    SplitValid(s1, live, o, k);
    HalfAbsent(s1, live, o, k, 2 * k);
  }

  lemma SwapMember(live: set<Block>, b: Block, c: Block, d: Block)
    requires c !in live
    ensures live - {b} + {c} - {c} + {d} == live - {b} + {d}
  {
  }

  lemma SliceUnfolds(s: State, a: nat, start: nat, target: nat, half: nat)
    requires Shape(s) && target < start <= TOP && half == Middle(start, a)
    ensures var s2 := Insert(SetUsed(s, start, a), start - 1, half);
            Slice(s, a, start, target) ==
              if start - 1 > target then Slice(s2, a, start - 1, target) else SetUsed(s2, target, a)
  {
  }

  /** Slicing block `(start, k)`, whose bit is about to be set, ends with its leftmost
      sub-block of the target order live in its place. */
  lemma {:induction false} SliceValid(s: State, live: set<Block>, a: nat, start: nat, k: nat, target: nat)
    requires Shape(s) && target < start <= TOP && a == Base(start, k)
    requires Valid(SetUsed(s, start, a), live) && Block(start, k) in live
    ensures Valid(Slice(s, a, start, target), live - {Block(start, k)} + {Block(target, Blk(target, a))})
    decreases start
  {
    var half := Middle(start, a);
    HalvesOf(start, k, a);
    SliceUnfolds(s, a, start, target, half);
    SliceLevel(SetUsed(s, start, a), live, start, k, a, half);
    if start - 1 > target {
      var s2 := Insert(SetUsed(s, start, a), start - 1, half);
      SliceValid(s2, live - {Block(start, k)} + {Block(start - 1, 2 * k)}, a, start - 1, 2 * k, target);
      SwapMember(live, Block(start, k), Block(start - 1, 2 * k), Block(target, Blk(target, a)));
    }
  }

  lemma HeadIsBlock(s: State, o: nat)
    requires Shape(s) && o <= TOP && ListOk(s, o) && s.lists[o] != []
    ensures s.lists[o][0] == Base(o, Blk(o, s.lists[o][0]))
    ensures InRange(s, o, Blk(o, s.lists[o][0]))
    ensures IsFree(s, o, Blk(o, s.lists[o][0]))
    ensures Take(s, o) == SetUsed(RemoveHead(s, o), o, s.lists[o][0])
  {
  }

  /** The order whose free list a search from `i` up draws on; past the top when all are empty. */
  function SourceOrder(s: State, i: nat): (r: nat)
    requires Shape(s) && i <= MAX_ORDER
    ensures i <= r <= MAX_ORDER
    ensures r < MAX_ORDER ==> s.lists[r] != []
    ensures forall p :: i <= p < r ==> s.lists[p] == []
    decreases MAX_ORDER - i
  {
    if i == MAX_ORDER || s.lists[i] != [] then i else SourceOrder(s, i + 1)
  }

  lemma {:induction false} AllocAboveIs(s: State, order: nat, i: nat)
    requires Shape(s) && Listed(s) && order < i <= MAX_ORDER
    ensures var p := SourceOrder(s, i);
            AllocAbove(s, order, i) ==
              if p == MAX_ORDER then (s, None)
              else (Slice(RemoveHead(s, p), s.lists[p][0], p, order), Some(s.lists[p][0]))
    decreases MAX_ORDER - i
  {
    if i < MAX_ORDER {
      assert ListOk(s, i);
      if s.lists[i] == [] {
        AllocAboveIs(s, order, i + 1);
      }
    }
  }

  lemma HeadsReadable(s: State, live: set<Block>, order: nat)
    requires Valid(s, live) && order <= TOP
    ensures HeadReadable(s, order)
  {
    assert ListOk(s, order);
  }

  /** Allocation keeps the invariant.  A success makes live one aligned managed block of the
      requested order, none of whose bytes was live; a failure changes nothing. */
  lemma AllocValid(s: State, live: set<Block>, n: nat)
    requires Valid(s, live)
    ensures HeadReadable(s, BuddyOrder(n))
    ensures var (t, r) := Alloc(s, n);
            var o := BuddyOrder(n);
            match r
            case None => t == s
            case Some(a) =>
              && Aligned(o, a)
              && InRange(s, o, Blk(o, a))
              && Valid(t, live + {Block(o, Blk(o, a))})
              && forall x :: Blk(o, x) == Blk(o, a) ==> !LiveAt(live, x)
  {
    var o := BuddyOrder(n);
    HeadsReadable(s, live, o);
    assert ListOk(s, o);
    var p := SourceOrder(s, o);
    if p == o {
      AllocFromHead(s, live, o, o);
      TakeValid(s, live, o, Blk(o, s.lists[o][0]));
      HeadIsBlock(s, o);
    } else {
      assert SourceOrder(s, o + 1) == p;
      AllocAboveIs(s, o, o + 1);
      if p < MAX_ORDER {
        AllocFromHead(s, live, p, o);
        AllocBySlicing(s, live, p, o);
      }
    }
  }

  lemma AllocBySlicing(s: State, live: set<Block>, p: nat, o: nat)
    requires Valid(s, live) && o < p <= TOP && s.lists[p] != []
    ensures var a := s.lists[p][0];
            Valid(Slice(RemoveHead(s, p), a, p, o), live + {Block(o, Blk(o, a))})
  {
    assert ListOk(s, p);
    var a := s.lists[p][0];
    var k := Blk(p, a);
    HeadIsBlock(s, p);
    TakeValid(s, live, p, k);
    SliceValid(RemoveHead(s, p), live + {Block(p, k)}, a, p, k, o);
    assert live + {Block(p, k)} - {Block(p, k)} == live;
  }

  /** The leftmost order-`o` part of a listed block is aligned, managed and holds no live byte. */
  lemma AllocFromHead(s: State, live: set<Block>, p: nat, o: nat)
    requires Valid(s, live) && o <= p <= TOP && s.lists[p] != []
    ensures var a := s.lists[p][0];
            && Aligned(o, a)
            && InRange(s, o, Blk(o, a))
            && forall x :: Blk(o, x) == Blk(o, a) ==> !LiveAt(live, x)
  {
    assert ListOk(s, p);
    HeadIsBlock(s, p);
    var a := s.lists[p][0];
    LeftmostBlk(p, Blk(p, a), o);
    RangeBelow(s, a, p, o);
    forall x | Blk(o, x) == Blk(o, a) ensures !LiveAt(live, x) {
      SameBlkAbove(o, p, x, a);
      FreeNotLive(s, live, p, x);
    }
  }

  // ---- tiling ----

  /** Some live block holds address `a`. */
  ghost predicate LiveAt(live: set<Block>, a: nat) {
    exists o :: 0 <= o <= TOP && Block(o, Blk(o, a)) in live
  }

  /** The block of order `o` around `a` is handed out or listed. */
  predicate Holds(s: State, live: set<Block>, o: nat, a: nat)
    requires Shape(s) && o <= TOP
  {
    IsFree(s, o, Blk(o, a)) || Block(o, Blk(o, a)) in live
  }

  predicate Managed(s: State, a: nat) {
    InRange(s, 0, Blk(0, a))
  }

  lemma {:induction false} RangeBelow(s: State, a: nat, p: nat, o: nat)
    requires o <= p <= TOP
    ensures InRange(s, o, Blk(o, a)) <==> InRange(s, p, Blk(p, a))
    decreases p - o
  {
    if o < p {
      RangeBelow(s, a, p, o + 1);
    }
  }

  /** The managed addresses are the bytes of the top blocks. */
  lemma ManagedIsInterval(s: State, a: nat)
    ensures Managed(s, a) <==> Base(TOP, s.first) <= a < Base(TOP, s.first + s.tops)
  {
    RangeBelow(s, a, TOP, 0);
    var q, e := Blk(TOP, a), s.first + s.tops;
    InBlock(TOP, q, a);
    if q < s.first {
      BaseOrder(TOP, q, s.first);
    } else if s.first < q {
      BaseOrder(TOP, s.first, q);
    }
    if q < e {
      BaseOrder(TOP, q, e);
    } else if e < q {
      BaseOrder(TOP, e, q);
    }
  }

  lemma {:induction false} AbsentBelow(s: State, live: set<Block>, a: nat, o: nat, p: nat)
    requires Valid(s, live) && p < o <= TOP && InRange(s, o, Blk(o, a))
    requires !IsSplit(s, live, o, Blk(o, a))
    ensures !InTree(s, p, Blk(p, a)) && Block(p, Blk(p, a)) !in live
    decreases o - p
  {
    RangeBelow(s, a, o, p);
    NodeAt(s, live, p, Blk(p, a));
    if p + 1 < o {
      AbsentBelow(s, live, a, o, p + 1);
    }
  }

  function Owner(s: State, live: set<Block>, a: nat, o: nat): (w: nat)
    requires Shape(s) && o <= TOP
    ensures w <= o
    ensures forall p :: w < p <= o ==> IsSplit(s, live, p, Blk(p, a))
  {
    if o > 0 && IsSplit(s, live, o, Blk(o, a)) then Owner(s, live, a, o - 1) else o
  }

  lemma {:induction false} OwnerHolds(s: State, live: set<Block>, a: nat, o: nat)
    requires Valid(s, live) && o <= TOP && InRange(s, o, Blk(o, a)) && InTree(s, o, Blk(o, a))
    ensures var w := Owner(s, live, a, o);
            && Holds(s, live, w, a)
            && forall p :: 0 <= p <= o && Holds(s, live, p, a) ==> p == w
  {
    NodeAt(s, live, o, Blk(o, a));
    if o > 0 && IsSplit(s, live, o, Blk(o, a)) {
      RangeBelow(s, a, o, o - 1);
      NodeAt(s, live, o - 1, Blk(o - 1, a));
      OwnerHolds(s, live, a, o - 1);
    } else {
      forall p | 0 <= p < o ensures !Holds(s, live, p, a) {
        AbsentBelow(s, live, a, o, p);
      }
    }
  }

  /** Every managed address lies in exactly one block that is free or live. */
  lemma Tiling(s: State, live: set<Block>, a: nat)
    requires Valid(s, live) && Managed(s, a)
    ensures var w := Owner(s, live, a, TOP);
            && Holds(s, live, w, a)
            && (forall o :: 0 <= o <= TOP && Holds(s, live, o, a) ==> o == w)
            && !(IsFree(s, w, Blk(w, a)) && Block(w, Blk(w, a)) in live)
  {
    RangeBelow(s, a, TOP, 0);
    NodeAt(s, live, TOP, Blk(TOP, a));
    OwnerHolds(s, live, a, TOP);
    var w := Owner(s, live, a, TOP);
    RangeBelow(s, a, w, 0);
    NodeAt(s, live, w, Blk(w, a));
  }

  /** No free or live block reaches outside the managed range. */
  lemma HeldIsManaged(s: State, live: set<Block>, o: nat, a: nat)
    requires Valid(s, live) && o <= TOP && Holds(s, live, o, a)
    ensures Managed(s, a)
  {
    assert ListOk(s, o);
    if IsFree(s, o, Blk(o, a)) {
      BaseOfListed(s, o, Blk(o, a));
    }
    RangeBelow(s, a, o, 0);
  }

  lemma FreeNotLive(s: State, live: set<Block>, o: nat, a: nat)
    requires Valid(s, live) && o <= TOP && IsFree(s, o, Blk(o, a))
    ensures !LiveAt(live, a)
  {
    HeldIsManaged(s, live, o, a);
    Tiling(s, live, a);
    assert Holds(s, live, o, a);
    if LiveAt(live, a) {
      var p :| 0 <= p <= TOP && Block(p, Blk(p, a)) in live;
      assert Holds(s, live, p, a);
    }
  }

  /** What a bitmap says: the bit of a managed block is set exactly when the block is live or
      some smaller block inside it is free or live. */
  lemma BitMeaning(s: State, live: set<Block>, o: nat, k: nat)
    requires Valid(s, live) && o <= TOP && InRange(s, o, k)
    ensures k in s.bits[o] <==>
              Block(o, k) in live || exists p, a: nat :: 0 <= p < o && Blk(o, a) == k && Holds(s, live, p, a)
  {
    var x := Base(o, k);
    BlkOfBase(o, k);
    NodeAt(s, live, o, k);
    if IsSplit(s, live, o, k) {
      OwnerHolds(s, live, x, o);
      assert Holds(s, live, Owner(s, live, x, o), x);
    }
    forall p, a: nat | 0 <= p < o && Blk(o, a) == k && Holds(s, live, p, a)
      ensures k in s.bits[o]
    {
      if !IsSplit(s, live, o, k) {
        AbsentBelow(s, live, a, o, p);
      }
    }
  }

  // ---- exact failure ----

  /** Some byte of block `(o, k)` is live. */
  ghost predicate HasLive(live: set<Block>, o: nat, k: nat) {
    exists a :: Blk(o, a) == k && LiveAt(live, a)
  }

  lemma BlockHasLive(live: set<Block>, p: nat, j: nat, o: nat, k: nat)
    requires p <= o && p <= TOP && Block(p, j) in live && Blk(o, Base(p, j)) == k
    ensures HasLive(live, o, k)
  {
    BlkOfBase(p, j);
    assert LiveAt(live, Base(p, j));
  }

  lemma OneHalfUsed(s: State, live: set<Block>, o: nat, k: nat)
    requires Shape(s) && 0 < o <= TOP && IsSplit(s, live, o, k)
    requires NodeOk(s, live, o - 1, 2 * k) && NodeOk(s, live, o - 1, 2 * k + 1)
    ensures 2 * k in s.bits[o - 1] || 2 * k + 1 in s.bits[o - 1]
  {
    assert Sibling(2 * k) == 2 * k + 1;
  }

  lemma HalfInRange(s: State, live: set<Block>, o: nat, k: nat, j: nat)
    requires Valid(s, live) && 0 < o <= TOP && InRange(s, o, k) && j / 2 == k
    ensures InRange(s, o - 1, j) && NodeOk(s, live, o - 1, j)
  {
    assert InRange(s, o - 1, j);
  }

  /** One half of a split block is live or split itself. */
  lemma SplitHasUsedHalf(s: State, live: set<Block>, o: nat, k: nat) returns (j: nat)
    requires Valid(s, live) && o <= TOP && InRange(s, o, k) && IsSplit(s, live, o, k)
    ensures o > 0 && j / 2 == k && InRange(s, o - 1, j) && j in s.bits[o - 1]
  {
    NodeAt(s, live, o, k);
    HalfInRange(s, live, o, k, 2 * k);
    HalfInRange(s, live, o, k, 2 * k + 1);
    OneHalfUsed(s, live, o, k);
    j := if 2 * k in s.bits[o - 1] then 2 * k else 2 * k + 1;
  }

  /** A split block always has a live byte below it: full coalescing. */
  lemma {:induction false} SplitHasLive(s: State, live: set<Block>, o: nat, k: nat)
    requires Valid(s, live) && o <= TOP && InRange(s, o, k) && IsSplit(s, live, o, k)
    ensures HasLive(live, o, k)
    decreases o
  {
    var j := SplitHasUsedHalf(s, live, o, k);
    if Block(o - 1, j) in live {
      BlkOfBase(o - 1, j);
      BlockHasLive(live, o - 1, j, o, k);
    } else {
      SplitHasLive(s, live, o - 1, j);
      var a :| Blk(o - 1, a) == j && LiveAt(live, a);
      assert Blk(o, a) == k;
    }
  }

  lemma NoSourceAllLive(s: State, live: set<Block>, o: nat, k: nat)
    requires Valid(s, live) && o <= TOP && SourceOrder(s, o) == MAX_ORDER && InRange(s, o, k)
    ensures HasLive(live, o, k)
  {
    var a := Base(o, k);
    BlkOfBase(o, k);
    RangeBelow(s, a, o, 0);
    Tiling(s, live, a);
    var w := Owner(s, live, a, TOP);
    if w >= o {
      assert s.lists[w] == [];
      assert LiveAt(live, a);
    } else {
      SplitHasLive(s, live, o, k);
    }
  }

  /** Allocation fails exactly when every aligned run of the requested order has a live byte. */
  lemma AllocFailsIff(s: State, live: set<Block>, n: nat)
    requires Valid(s, live)
    ensures HeadReadable(s, BuddyOrder(n))
    ensures Alloc(s, n).1.None? <==>
              forall k :: InRange(s, BuddyOrder(n), k) ==> HasLive(live, BuddyOrder(n), k)
  {
    var o := BuddyOrder(n);
    HeadsReadable(s, live, o);
    assert ListOk(s, o);
    var p := SourceOrder(s, o);
    if p != o {
      AllocAboveIs(s, o, o + 1);
    }
    if p == MAX_ORDER {
      forall k | InRange(s, o, k) ensures HasLive(live, o, k) {
        NoSourceAllLive(s, live, o, k);
      }
    } else {
      AllocFromHead(s, live, p, o);
      var k := Blk(o, s.lists[p][0]);
      assert InRange(s, o, k) && !HasLive(live, o, k);
    }
  }
}
