/** Releasing blocks: what coalescing keeps, when the source's version goes wrong, and that a
    release undoes the allocation before it. */
module BuddyRelease {
  import opened Basics
  import opened BuddyBlocks
  import opened BuddySpec
  import opened BuddyInvariant
  import opened BuddyTheorems

  /** One level of coalescing in terms of blocks. */
  lemma CoalesceLevel(v: Variant, s: State, o: nat, a: nat)
    requires Shape(s) && o <= TOP
    ensures var k := Blk(o, a);
            Coalesce(v, s, o, a) ==
              if o < TOP && Sibling(k) !in s.bits[o]
              then Coalesce(v, Merge(s, o, k), o + 1, if v == AsWritten then a else Base(o + 1, k / 2))
              else Insert(ClearBit(s, o, k), o, a)
  {
  }

  /** The sibling of a live block is free exactly when its bit is clear. */
  lemma ClearSiblingIsFree(s: State, live: set<Block>, o: nat, k: nat)
    requires Valid(s, live) && Block(o, k) in live && o < TOP
    ensures IsFree(s, o, Sibling(k)) <==> Sibling(k) !in s.bits[o]
    ensures Block(o + 1, k / 2) !in live
  {
    assert InRange(s, o, k);
    NodeAt(s, live, o, k);
    assert InRange(s, o, Sibling(k));
    NodeAt(s, live, o, Sibling(k));
  }

  lemma CollapseLive(live: set<Block>, b: Block, c: Block)
    requires c !in live
    ensures live - {b} + {c} - {c} == live - {b}
  {
  }

  /** The base-normalised variant keeps the invariant for every live block. */
  lemma {:induction false} Coalescing(s: State, live: set<Block>, o: nat, k: nat)
    requires Valid(s, live) && Block(o, k) in live && o <= TOP
    ensures Valid(Coalesce(PairBase, s, o, Base(o, k)), live - {Block(o, k)})
    decreases TOP - o
  {
    BlkOfBase(o, k);
    CoalesceLevel(PairBase, s, o, Base(o, k));
    if o < TOP {
      ClearSiblingIsFree(s, live, o, k);
    }
    if o < TOP && Sibling(k) !in s.bits[o] {
      MergeValid(s, live, o, k);
      Coalescing(Merge(s, o, k), live - {Block(o, k)} + {Block(o + 1, k / 2)}, o + 1, k / 2);
      CollapseLive(live, Block(o, k), Block(o + 1, k / 2));
    } else {
      PutValid(s, live, o, k);
    }
  }

  // ---- the order reached by merging ----

  /** The order at which merging block `(o, k)` upward stops. */
  function MergedOrder(s: State, o: nat, k: nat): (m: nat)
    requires Shape(s) && o <= TOP
    ensures o <= m <= TOP
    decreases TOP - o
  {
    if o < TOP && Sibling(k) !in s.bits[o] then MergedOrder(s, o + 1, k / 2) else o
  }

  lemma {:induction false} MergedOrderLooksUp(s: State, t: State, o: nat, k: nat)
    requires Shape(s) && Shape(t) && o <= TOP
    requires forall p :: o <= p <= TOP ==> s.bits[p] == t.bits[p]
    ensures MergedOrder(s, o, k) == MergedOrder(t, o, k)
    decreases TOP - o
  {
    if o < TOP && Sibling(k) !in s.bits[o] {
      MergedOrderLooksUp(s, t, o + 1, k / 2);
    }
  }

  /** `t` is `s` with the head of list `m` replaced by `a`. */
  function Rehead(s: State, m: nat, a: nat): State
    requires Shape(s) && m <= TOP && s.lists[m] != []
  {
    s.(lists := s.lists[m := [a] + s.lists[m][1..]])
  }

  /** The source's merge from order `o` is the variant's with another address at the head of the
      list of the order reached. */
  ghost predicate Reheads(s: State, o: nat, a: nat)
    requires Shape(s) && o <= TOP
  {
    var m := MergedOrder(s, o, Blk(o, a));
    var r := Coalesce(PairBase, s, o, Base(o, Blk(o, a)));
    && r.lists[m] != [] && r.lists[m][0] == Base(m, Blk(m, a))
    && Coalesce(AsWritten, s, o, a) == Rehead(r, m, a)
  }

  lemma ReheadsHere(s: State, o: nat, a: nat, k: nat)
    requires Shape(s) && o <= TOP && k == Blk(o, a) && !(o < TOP && Sibling(k) !in s.bits[o])
    ensures Reheads(s, o, a)
  {
    BlkOfBase(o, k);
    CoalesceLevel(AsWritten, s, o, a);
    CoalesceLevel(PairBase, s, o, Base(o, k));
    InsertReheads(ClearBit(s, o, k), o, Base(o, k), a);
  }

  lemma ReheadsAbove(s: State, o: nat, a: nat, k: nat, t: State)
    requires Shape(s) && o < TOP && k == Blk(o, a) && Sibling(k) !in s.bits[o]
    requires t == Merge(s, o, k) && Reheads(t, o + 1, a)
    ensures Reheads(s, o, a)
  {
    BlkOfBase(o, k);
    MergedAbove(s, o, k);
    assert Coalesce(AsWritten, s, o, a) == Coalesce(AsWritten, t, o + 1, a) by {
      CoalesceLevel(AsWritten, s, o, a);
    }
    assert Coalesce(PairBase, s, o, Base(o, k)) == Coalesce(PairBase, t, o + 1, Base(o + 1, k / 2)) by {
      CoalesceLevel(PairBase, s, o, Base(o, k));
    }
  }

  /** The source and the variant agree on everything but the address of the block finally
      listed: the variant lists its base, the source the address it was given. */
  lemma {:induction false} AsWrittenIsReheaded(s: State, o: nat, a: nat)
    requires Shape(s) && o <= TOP
    ensures Reheads(s, o, a)
    decreases TOP - o
  {
    var k := Blk(o, a);
    if o < TOP && Sibling(k) !in s.bits[o] {
      AsWrittenIsReheaded(Merge(s, o, k), o + 1, a);
      ReheadsAbove(s, o, a, k, Merge(s, o, k));
    } else {
      ReheadsHere(s, o, a, k);
    }
  }

  lemma MergedAbove(s: State, o: nat, k: nat)
    requires Shape(s) && o < TOP && Sibling(k) !in s.bits[o]
    ensures MergedOrder(s, o, k) == MergedOrder(Merge(s, o, k), o + 1, k / 2)
  {
    MergedOrderLooksUp(s, Merge(s, o, k), o + 1, k / 2);
  }

  lemma InsertReheads(c: State, o: nat, b: nat, a: nat)
    requires Shape(c) && o <= TOP
    ensures var r := Insert(c, o, b);
            r.lists[o] != [] && r.lists[o][0] == b && Insert(c, o, a) == Rehead(r, o, a)
  {
    assert ([b] + c.lists[o])[1..] == c.lists[o];
  }

  // ---- finding the order of the block ----

  /** A release climbs to the order the block was allocated at, for any count it can hold. */
  lemma FreeFindsOrder(v: Variant, s: State, live: set<Block>, o: nat, k: nat, n: nat)
    requires Valid(s, live) && Block(o, k) in live && o <= TOP && n <= Pow2(o)
    ensures FreeFrames(v, s, Base(o, k), n) == Coalesce(v, s, o, Base(o, k))
  {
    OrderFits(n, o);
    Climb(v, s, live, o, k, BuddyOrder(n));
  }

  lemma {:induction false} Climb(v: Variant, s: State, live: set<Block>, o: nat, k: nat, p: nat)
    requires Valid(s, live) && Block(o, k) in live && p <= o <= TOP
    ensures FreeRec(v, s, p, Base(o, k)) == Coalesce(v, s, o, Base(o, k))
    decreases o - p
  {
    var a := Base(o, k);
    BlkOfBase(o, k);
    if p < o {
      assert InRange(s, o, k);
      AbsentBelow(s, live, a, o, p);
      Climb(v, s, live, o, k, p + 1);
    }
  }

  // ---- exactly when the source's release is right ----

  lemma ReheadSame(s: State, m: nat, a: nat)
    requires Shape(s) && m <= TOP && s.lists[m] != [] && s.lists[m][0] == a
    ensures Rehead(s, m, a) == s
  {
    assert [a] + s.lists[m][1..] == s.lists[m];
  }

  lemma UnalignedHead(s: State, m: nat, a: nat)
    requires Shape(s) && m <= TOP && s.lists[m] != [] && !Aligned(m, a)
    ensures Shape(Rehead(s, m, a)) && !Listed(Rehead(s, m, a))
  {
    assert Rehead(s, m, a).lists[m][0] == a;
    assert !ListOk(Rehead(s, m, a), m);
  }

  /** The variant's release is right for every live block. */
  lemma FreePairBase(s: State, live: set<Block>, b: Block, n: nat)
    requires Valid(s, live) && b in live && n <= Pow2(b.order)
    ensures Valid(FreeFrames(PairBase, s, Base(b.order, b.num), n), live - {b})
  {
    FreeFindsOrder(PairBase, s, live, b.order, b.num, n);
    Coalescing(s, live, b.order, b.num);
  }

  /** The source's release is right exactly when the freed address is aligned to the order the
      merging reaches; then it equals the variant, and otherwise it leaves an unaligned entry,
      so that no set of live blocks makes the state valid. */
  lemma FreeAsWrittenIff(s: State, live: set<Block>, b: Block, n: nat)
    requires Valid(s, live) && b in live && n <= Pow2(b.order)
    ensures var a := Base(b.order, b.num);
            var good := Aligned(MergedOrder(s, b.order, b.num), a);
            var r := FreeFrames(AsWritten, s, a, n);
            && (good <==> Valid(r, live - {b}))
            && (good <==> r == FreeFrames(PairBase, s, a, n))
            && (!good ==> !Listed(r))
  {
    var o, k := b.order, b.num;
    var a := Base(o, k);
    var m := MergedOrder(s, o, k);
    BlkOfBase(o, k);
    FreeFindsOrder(AsWritten, s, live, o, k, n);
    FreeFindsOrder(PairBase, s, live, o, k, n);
    AsWrittenIsReheaded(s, o, a);
    FreePairBase(s, live, b, n);
    var r := Coalesce(PairBase, s, o, a);
    if Aligned(m, a) {
      ReheadSame(r, m, a);
    } else {
      UnalignedHead(r, m, a);
    }
  }

  /** The alignment says that every merge of the release starts at a left half. */
  lemma {:induction false} AlignedIffLeftMerges(o: nat, m: nat, a: nat)
    requires o <= m && Aligned(o, a)
    ensures Aligned(m, a) <==> forall p :: o <= p < m ==> Blk(p, a) % 2 == 0
    decreases m - o
  {
    if o < m {
      AlignedIffLeftMerges(o, m - 1, a);
      var k := Blk(m - 1, a);
      if k % 2 == 0 {
        assert Base(m, Blk(m, a)) == Base(m - 1, k);
      } else {
        assert Base(m, Blk(m, a)) == Base(m - 1, k - 1);
        InBlock(m - 1, k, a);
        InBlock(m - 1, k - 1, Base(m - 1, k - 1));
        BlkOfBase(m - 1, k - 1);
      }
    }
  }

  // ---- release undoes allocation ----

  lemma ClearAfterSet(bits: set<nat>, k: nat)
    requires k !in bits
    ensures bits + {k} - {k} == bits
  {
  }

  lemma RemoveUndoesInsert(s: State, p: nat, x: nat)
    requires Shape(s) && p <= TOP
    ensures RemoveFrame(Insert(s, p, x), p, x) == s
  {
    var t := Insert(s, p, x);
    assert FindCovering(t.lists[p], p, x) == 0;
    assert t.lists[p][..0] + t.lists[p][1..] == s.lists[p];
  }

  /** One level of slicing followed by one level of coalescing is nothing at all. */
  lemma LevelUndone(v: Variant, s1: State, p: nat, j: nat, a: nat, half: nat)
    requires Shape(s1) && p < TOP && j !in s1.bits[p] && Sibling(j) !in s1.bits[p]
    requires Blk(p, a) == j && a == Base(p + 1, j / 2) && half == Base(p, Sibling(j))
    ensures Coalesce(v, SetUsed(Insert(s1, p, half), p, a), p, a) == Coalesce(v, s1, p + 1, a)
  {
    var t := SetUsed(Insert(s1, p, half), p, a);
    CoalesceLevel(v, t, p, a);
    ClearAfterSet(s1.bits[p], j);
    assert ClearBit(t, p, j) == Insert(s1, p, half);
    RemoveUndoesInsert(s1, p, half);
  }

  lemma ValidLevelUndone(v: Variant, s1: State, live: set<Block>, o: nat, k: nat, a: nat, half: nat)
    requires Valid(s1, live) && Block(o, k) in live && 0 < o <= TOP
    requires Blk(o - 1, a) == 2 * k && a == Base(o, k) && half == Base(o - 1, 2 * k + 1)
    ensures Coalesce(v, SetUsed(Insert(s1, o - 1, half), o - 1, a), o - 1, a) == Coalesce(v, s1, o, a)
  {
    HalfAbsent(s1, live, o, k, 2 * k);
    HalfAbsent(s1, live, o, k, 2 * k + 1);
    LevelUndone(v, s1, o - 1, 2 * k, a, half);
  }

  /** Coalescing from the target order undoes a whole slicing. */
  lemma {:induction false} SliceUndone(v: Variant, s: State, live: set<Block>,
                                       a: nat, start: nat, k: nat, target: nat)
    requires Shape(s) && target < start <= TOP && a == Base(start, k)
    requires Valid(SetUsed(s, start, a), live) && Block(start, k) in live
    ensures Coalesce(v, Slice(s, a, start, target), target, a) == Coalesce(v, SetUsed(s, start, a), start, a)
    decreases start
  {
    var half := Middle(start, a);
    HalvesOf(start, k, a);
    SliceUnfolds(s, a, start, target, half);
    ValidLevelUndone(v, SetUsed(s, start, a), live, start, k, a, half);
    if start - 1 > target {
      SliceLevel(SetUsed(s, start, a), live, start, k, a, half);
      var s2 := Insert(SetUsed(s, start, a), start - 1, half);
      SliceUndone(v, s2, live - {Block(start, k)} + {Block(start - 1, 2 * k)}, a, start - 1, 2 * k, target);
    }
  }

  lemma PutUndoesTake(s: State, o: nat)
    requires Shape(s) && o <= TOP && s.lists[o] != [] && s.numFree[o] > 0
    requires Blk(o, s.lists[o][0]) !in s.bits[o]
    ensures var a := s.lists[o][0];
            Insert(ClearBit(Take(s, o), o, Blk(o, a)), o, a) == s
  {
    var a := s.lists[o][0];
    ClearAfterSet(s.bits[o], Blk(o, a));
    assert [a] + s.lists[o][1..] == s.lists[o];
    assert ClearBit(Take(s, o), o, Blk(o, a)) == RemoveHead(s, o);
  }

  /** The sibling of a listed block is in use. */
  lemma FreeSiblingUsed(s: State, live: set<Block>, o: nat, k: nat)
    requires Valid(s, live) && o <= TOP && InRange(s, o, k) && IsFree(s, o, k)
    ensures k !in s.bits[o]
    ensures o < TOP ==> Sibling(k) in s.bits[o]
  {
    NodeAt(s, live, o, k);
    if o < TOP {
      assert InRange(s, o, Sibling(k));
      NodeAt(s, live, o, Sibling(k));
    }
  }

  /** Coalescing a block just taken from the head of its list puts it back. */
  lemma TakeUndone(v: Variant, s: State, live: set<Block>, o: nat)
    requires Valid(s, live) && o <= TOP && s.lists[o] != []
    ensures Coalesce(v, Take(s, o), o, s.lists[o][0]) == s
  {
    assert ListOk(s, o);
    HeadIsBlock(s, o);
    var a := s.lists[o][0];
    FreeSiblingUsed(s, live, o, Blk(o, a));
    CoalesceLevel(v, Take(s, o), o, a);
    PutUndoesTake(s, o);
  }

  /** Freeing the block an allocation has just returned restores every list, counter and
      bitmap, in the source's version as well. */
  lemma FreeUndoesAlloc(v: Variant, s: State, live: set<Block>, n: nat)
    requires Valid(s, live)
    ensures HeadReadable(s, BuddyOrder(n))
    ensures var (t, r) := Alloc(s, n);
            r.Some? ==> FreeFrames(v, t, r.value, n) == s
  {
    var o := BuddyOrder(n);
    AllocValid(s, live, n);
    var (t, r) := Alloc(s, n);
    if r.Some? {
      var a := r.value;
      var b := Block(o, Blk(o, a));
      assert FreeFrames(v, t, a, n) == Coalesce(v, t, o, a) by {
        Climb(v, t, live + {b}, o, b.num, o);
      }
      var p := SourceOrder(s, o);
      assert ListOk(s, o);
      if p == o {
        HeadIsBlock(s, o);
        TakeUndone(v, s, live, o);
      } else {
        AllocAboveIs(s, o, o + 1);
        AllocAboveUndone(v, s, live, p, o);
      }
    }
  }

  lemma AllocAboveUndone(v: Variant, s: State, live: set<Block>, p: nat, o: nat)
    requires Valid(s, live) && o < p <= TOP && s.lists[p] != []
    ensures var a := s.lists[p][0];
            Coalesce(v, Slice(RemoveHead(s, p), a, p, o), o, a) == s
  {
    assert ListOk(s, p);
    var a := s.lists[p][0];
    var k := Blk(p, a);
    HeadIsBlock(s, p);
    TakeValid(s, live, p, k);
    SliceUndone(v, RemoveHead(s, p), live + {Block(p, k)}, a, p, k, o);
    TakeUndone(v, s, live, p);
  }

  // ---- runs ----

  /** A well-nested run: each allocation that succeeds is released after an inner run. */
  datatype Nest = Done | Pair(n: nat, inner: Nest, rest: Nest)

  /** Runs `w` from `s`.  Where an order's counter belies its empty list the run stops (the
      source would follow a null link); `NestRestores` is about states where none does. */
  function RunNest(v: Variant, s: State, w: Nest): (r: State)
    requires Shape(s)
    ensures Shape(r)
    decreases w
  {
    match w
    case Done => s
    case Pair(n, inner, rest) =>
      if !HeadReadable(s, BuddyOrder(n)) then s
      else
        match Alloc(s, n)
        case (t, None) => RunNest(v, t, rest)
        case (t, Some(a)) => RunNest(v, FreeFrames(v, RunNest(v, t, inner), a, n), rest)
  }

  /** Any well-nested run ends in the very state it started from. */
  lemma {:induction false} NestRestores(v: Variant, s: State, live: set<Block>, w: Nest)
    requires Valid(s, live)
    ensures RunNest(v, s, w) == s
    decreases w
  {
    match w
    case Done =>
    case Pair(n, inner, rest) =>
      AllocValid(s, live, n);
      FreeUndoesAlloc(v, s, live, n);
      var (t, r) := Alloc(s, n);
      if r.Some? {
        NestRestores(v, t, live + {Block(BuddyOrder(n), Blk(BuddyOrder(n), r.value))}, inner);
      }
      NestRestores(v, s, live, rest);
  }

  datatype Op = AllocOp(n: nat) | FreeOp(b: Block, n: nat)

  datatype Sys = Sys(s: State, live: set<Block>)

  /** A caller may release a live block with any count the block can hold.  Under the source's
      version the release must also be aligned to the order its merging reaches. */
  predicate Enabled(v: Variant, y: Sys, op: Op)
    requires Shape(y.s)
  {
    match op
    case AllocOp(n) => HeadReadable(y.s, BuddyOrder(n))
    case FreeOp(b, n) =>
      && b in y.live && b.order <= TOP && n <= Pow2(b.order)
      && (v == AsWritten ==> Aligned(MergedOrder(y.s, b.order, b.num), Base(b.order, b.num)))
  }

  function Step(v: Variant, y: Sys, op: Op): (z: Sys)
    requires Shape(y.s) && Enabled(v, y, op)
    ensures Shape(z.s)
  {
    match op
    case AllocOp(n) =>
      var (t, r) := Alloc(y.s, n);
      Sys(t, match r
             case None => y.live
             case Some(a) => y.live + {Block(BuddyOrder(n), Blk(BuddyOrder(n), a))})
    case FreeOp(b, n) =>
      Sys(FreeFrames(v, y.s, Base(b.order, b.num), n), y.live - {b})
  }

  predicate IsRun(v: Variant, ys: seq<Sys>, ops: seq<Op>) {
    && |ys| == |ops| + 1
    && (forall i :: 0 <= i < |ys| ==> Shape(ys[i].s))
    && (forall i :: 0 <= i < |ops| ==> Enabled(v, ys[i], ops[i]) && ys[i + 1] == Step(v, ys[i], ops[i]))
  }

  lemma StepValid(v: Variant, y: Sys, op: Op)
    requires Valid(y.s, y.live) && Enabled(v, y, op)
    ensures var z := Step(v, y, op); Valid(z.s, z.live)
    ensures op.FreeOp? ==> Step(v, y, op) == Step(PairBase, y, op)
  {
    match op
    case AllocOp(n) => AllocValid(y.s, y.live, n);
    case FreeOp(b, n) =>
      FreePairBase(y.s, y.live, b, n);
      if v == AsWritten {
        FreeAsWrittenIff(y.s, y.live, b, n);
      }
  }

  /** Every state of every run from a created allocator is valid: under the variant for all
      releases of live blocks, under the source's version for the aligned ones. */
  lemma {:induction false} RunsValid(v: Variant, first: nat, tops: nat, ys: seq<Sys>, ops: seq<Op>, i: nat)
    requires IsRun(v, ys, ops) && ys[0] == Sys(Create(first, tops), {}) && i < |ys|
    ensures Valid(ys[i].s, ys[i].live)
  {
    if i == 0 {
      CreateValid(first, tops);
    } else {
      RunsValid(v, first, tops, ys, ops, i - 1);
      StepValid(v, ys[i - 1], ops[i - 1]);
      assert ys[i - 1 + 1] == Step(v, ys[i - 1], ops[i - 1]);
    }
  }
}
