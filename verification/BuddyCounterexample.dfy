/** A run on which the source's release goes wrong: two halves of one 4 MiB block are allocated,
    then released left half first.  The second release merges from the right half. */
module BuddyCounterexample {
  import opened Basics
  import opened BuddyBlocks
  import opened BuddySpec
  import opened BuddyInvariant
  import opened BuddyTheorems
  import opened BuddyRelease

  lemma Orders()
    ensures BuddyOrder(512) == 9 && BuddyOrder(1024) == TOP
  {
    Pow2Top();
    assert Pow2(TOP) == 2 * Pow2(9) && Pow2(9) == 2 * Pow2(8);
    BuddyOrderLeast(512);
    BuddyOrderLeast(1024);
    Pow2Monotone(if BuddyOrder(512) < 9 then BuddyOrder(512) else 8, 8);
  }

  /** The state with these two lists, order 9 and order 10, and these bits in the two orders. */
  function Two(first: nat, l9: seq<nat>, l10: seq<nat>, b9: set<nat>, b10: set<nat>): (s: State)
    ensures Shape(s)
  {
    State(first, 1,
          [[], [], [], [], [], [], [], [], [], l9, l10],
          [0, 0, 0, 0, 0, 0, 0, 0, 0, |l9|, |l10|],
          [{}, {}, {}, {}, {}, {}, {}, {}, {}, b9, b10])
  }

  lemma IsTwo(s: State, first: nat, l9: seq<nat>, l10: seq<nat>, b9: set<nat>, b10: set<nat>)
    requires Shape(s) && s.first == first && s.tops == 1
    requires forall o :: 0 <= o < 9 ==> s.lists[o] == [] && s.numFree[o] == 0 && s.bits[o] == {}
    requires s.lists[9] == l9 && s.numFree[9] == |l9| && s.bits[9] == b9
    requires s.lists[10] == l10 && s.numFree[10] == |l10| && s.bits[10] == b10
    ensures s == Two(first, l9, l10, b9, b10)
  {
    var t := Two(first, l9, l10, b9, b10);
    assert s.lists == t.lists;
    assert s.numFree == t.numFree;
    assert s.bits == t.bits;
  }

  lemma CreateIsTwo(first: nat)
    ensures Create(first, 1) == Two(first, [], [Base(TOP, first)], {}, {})
  {
    assert TopBlocks(first, 1) == [Base(TOP, first)];
    IsTwo(Create(first, 1), first, [], [Base(TOP, first)], {}, {});
  }

  lemma FirstSlice(first: nat, left: nat, right: nat)
    requires left == Base(TOP, first) && right == Base(9, 2 * first + 1)
    ensures Slice(Two(first, [], [], {}, {}), left, TOP, 9) == Two(first, [right], [], {2 * first}, {first})
  {
    var t := Two(first, [], [], {}, {});
    HalvesOf(TOP, first, left);
    BlkOfBase(TOP, first);
    SliceUnfolds(t, left, TOP, 9, right);
    assert [right] + [] == [right];
    IsTwo(SetUsed(Insert(SetUsed(t, TOP, left), 9, right), 9, left),
          first, [right], [], {2 * first}, {first});
  }

  lemma FirstAlloc(first: nat, left: nat, right: nat)
    requires left == Base(TOP, first) && right == Base(9, 2 * first + 1)
    ensures var s := Two(first, [], [left], {}, {});
            && HeadReadable(s, BuddyOrder(512))
            && Alloc(s, 512) == (Two(first, [right], [], {2 * first}, {first}), Some(left))
  {
    Orders();
    FirstSlice(first, left, right);
    var s := Two(first, [], [left], {}, {});
    assert [left][1..] == [];
    IsTwo(RemoveHead(s, TOP), first, [], [], {}, {});
    assert AllocAbove(s, 9, TOP) == (Slice(RemoveHead(s, TOP), left, TOP, 9), Some(left));
  }

  lemma SecondAlloc(first: nat, right: nat)
    requires right == Base(9, 2 * first + 1)
    ensures var s := Two(first, [right], [], {2 * first}, {first});
            && HeadReadable(s, BuddyOrder(512))
            && Alloc(s, 512) == (Two(first, [], [], {2 * first, 2 * first + 1}, {first}), Some(right))
  {
    Orders();
    BlkOfBase(9, 2 * first + 1);
    var s := Two(first, [right], [], {2 * first}, {first});
    assert [right][1..] == [];
    IsTwo(SetUsed(RemoveHead(s, 9), 9, right),
          first, [], [], {2 * first, 2 * first + 1}, {first});
  }

  lemma FreeLeft(first: nat, left: nat)
    requires left == Base(9, 2 * first)
    ensures FreeFrames(AsWritten, Two(first, [], [], {2 * first, 2 * first + 1}, {first}), left, 512)
         == Two(first, [left], [], {2 * first + 1}, {first})
  {
    Orders();
    BlkOfBase(9, 2 * first);
    var s := Two(first, [], [], {2 * first, 2 * first + 1}, {first});
    assert Sibling(2 * first) == 2 * first + 1;
    CoalesceLevel(AsWritten, s, 9, left);
    assert {2 * first, 2 * first + 1} - {2 * first} == {2 * first + 1};
    assert [left] + [] == [left];
    IsTwo(Insert(ClearBit(s, 9, 2 * first), 9, left), first, [left], [], {2 * first + 1}, {first});
  }

  lemma MergeRight(first: nat, left: nat)
    requires left == Base(9, 2 * first)
    ensures Merge(Two(first, [left], [], {2 * first + 1}, {first}), 9, 2 * first + 1)
         == Two(first, [], [], {}, {first})
  {
    var s := Two(first, [left], [], {2 * first + 1}, {first});
    assert Sibling(2 * first + 1) == 2 * first;
    assert {2 * first + 1} - {2 * first + 1} == {};
    assert FindCovering([left], 9, left) == 0;
    assert [left][..0] + [left][1..] == [];
    IsTwo(Merge(s, 9, 2 * first + 1), first, [], [], {}, {first});
  }

  lemma PutTop(first: nat, a: nat)
    requires Blk(TOP, a) == first
    ensures Coalesce(AsWritten, Two(first, [], [], {}, {first}), TOP, a) == Two(first, [], [a], {}, {})
  {
    var t := Two(first, [], [], {}, {first});
    CoalesceLevel(AsWritten, t, TOP, a);
    assert {first} - {first} == {};
    assert [a] + [] == [a];
    IsTwo(Insert(ClearBit(t, TOP, first), TOP, a), first, [], [a], {}, {});
  }

  lemma FreeRight(first: nat, left: nat, right: nat)
    requires left == Base(9, 2 * first) && right == Base(9, 2 * first + 1)
    ensures FreeFrames(AsWritten, Two(first, [left], [], {2 * first + 1}, {first}), right, 512)
         == Two(first, [], [right], {}, {})
  {
    Orders();
    BlkOfBase(9, 2 * first + 1);
    var s := Two(first, [left], [], {2 * first + 1}, {first});
    assert Sibling(2 * first + 1) == 2 * first;
    CoalesceLevel(AsWritten, s, 9, right);
    MergeRight(first, left);
    PutTop(first, right);
  }

  lemma HalfBlock(o: nat, k: nat, half: nat)
    requires o > 0 && half == Base(o - 1, 2 * k + 1)
    ensures Base(o, k) < half && Blk(o, half) == k && !Aligned(o, half)
    ensures Blk(o, half + Size(o) - 1) != k
  {
    HalvesOf(o, k, Base(o, k));
    BlkOfBase(o - 1, 2 * k + 1);
    InBlock(o, k, half + Size(o) - 1);
  }

  /** The only listed block starts in the middle of the managed 4 MiB. */
  lemma ListedOffCentre(first: nat, right: nat, s: State)
    requires right == Base(TOP - 1, 2 * first + 1)
    requires Shape(s) && s.first == first && s.tops == 1 && s.lists[TOP] == [right]
    ensures !Listed(s) && !Managed(s, right + Size(TOP) - 1)
  {
    HalfBlock(TOP, first, right);
    assert s.lists[TOP][0] == right;
    assert !ListOk(s, TOP);
    OutsideTop(s, right + Size(TOP) - 1, TOP);
  }

  lemma OutsideTop(s: State, a: nat, o: nat)
    requires o == TOP && !(s.first <= Blk(o, a) < s.first + s.tops)
    ensures !Managed(s, a)
  {
    RangeBelow(s, a, o, 0);
  }

  lemma LastAlloc(first: nat, right: nat)
    ensures var s := Two(first, [], [right], {}, {});
            HeadReadable(s, BuddyOrder(1024)) && Alloc(s, 1024).1 == Some(right)
  {
    Orders();
  }

  /** With nothing live the next 4 MiB request is served from the middle of the only block, so
      that it ends 2 MiB past the managed range. */
  lemma MergeFromRightHalf(first: nat, left: nat, right: nat,
                           s0: State, s1: State, s2: State, s3: State, s4: State)
    requires left == Base(9, 2 * first) && right == Base(9, 2 * first + 1)
    requires s0 == Create(first, 1) && HeadReadable(s0, BuddyOrder(512)) && s1 == Alloc(s0, 512).0
    requires HeadReadable(s1, BuddyOrder(512)) && s2 == Alloc(s1, 512).0
    requires s3 == FreeFrames(AsWritten, s2, left, 512)
    requires s4 == FreeFrames(AsWritten, s3, right, 512)
    ensures Alloc(s0, 512).1 == Some(left) && Alloc(s1, 512).1 == Some(right)
    ensures !Listed(s4)
    ensures HeadReadable(s4, BuddyOrder(1024)) && Alloc(s4, 1024).1 == Some(right)
    ensures !Managed(s4, right + Size(TOP) - 1)
  {
    LeftIsBase(first, left);
    CreateIsTwo(first);
    FirstAlloc(first, left, right);
    SecondAlloc(first, right);
    FreeLeft(first, left);
    FreeRight(first, left, right);
    LastAlloc(first, right);
    ListedOffCentre(first, right, s4);
  }

  lemma LeftIsBase(first: nat, left: nat)
    requires left == Base(9, 2 * first)
    ensures left == Base(TOP, first)
  {
  }
}
