/** Mapping regions and cloning address spaces: the in-place updates of `mem/paging.c` and
    `mem/mmap.c` on page tables, the frame bitmap and the buddy allocator of virtual pages. */
module Mmu {
  import opened Basics
  import opened BuddyBlocks
  import opened BuddySpec
  import opened BuddyInvariant
  import opened BuddyTheorems
  import opened BuddyRelease
  import opened BuddyAllocator
  import opened PageTables
  import opened FrameBitmap
  import Frames = FrameSpec
  import FrameTheorems

  type Page = seq<bv8>

  function Zeros(): (t: Table)
    ensures |t| == PT_SIZE && forall i :: 0 <= i < PT_SIZE ==> t[i] == 0
  {
    seq<nat>(PT_SIZE, i => 0)
  }

  /** Where kernel pointers lie in physical memory, and where the kernel heap goes on. */
  datatype Layout = Layout(phys: nat -> nat, next: nat -> nat)

  /** The kernel heap never runs out of pointers to page-aligned memory. */
  ghost predicate Roomy(l: Layout) {
    forall x: nat :: l.next(x) > x && l.phys(l.next(x)) % PAGE_SIZE == 0
  }

  type Memory = l: Layout | Roomy(l) witness Layout((x: nat) => 0, (x: nat) => x + 1)

  lemma PdeIsTopBlk(va: nat)
    ensures Pde(va) == Blk(TOP, va)
  {
    BlkIsQuotient(TOP, va);
    Pow2Top();
  }

  /** A run of pages at the start of an aligned block stays within one page table. */
  lemma RunInTable(o: nat, v: nat, n: nat)
    requires o <= TOP && Aligned(o, v) && 1 <= n <= Pow2(o)
    ensures v % PAGE_SIZE == 0
    ensures Pte(v) + n <= PT_SIZE
  {
    LeftmostBlk(o, Blk(o, v), 0);
    var last := v + (n - 1) * PAGE_SIZE;
    InBlock(o, Blk(o, v), last);
    SameBlkAbove(o, TOP, v, last);
    PdeIsTopBlk(v);
    PdeIsTopBlk(last);
    SplitAddr(v);
    SplitAddr(last);
  }

  /** What an allocation of `n` pages gives: a page-aligned run in one table of the range. */
  lemma KernelRun(v: State, n: nat, a: nat)
    requires 1 <= n <= PT_SIZE && var o := BuddyOrder(n); Aligned(o, a) && InRange(v, o, Blk(o, a))
    ensures n <= Pow2(BuddyOrder(n))
    ensures a % PAGE_SIZE == 0 && Pte(a) + n <= PT_SIZE
    ensures v.first <= Pde(a) < v.first + v.tops
  {
    BuddyOrderLeast(n);
    RunInTable(BuddyOrder(n), a, n);
    RangeBelow(v, a, TOP, BuddyOrder(n));
    PdeIsTopBlk(a);
  }

  /** What a mapping leaves alone: every other slot of the directory and every other table. */
  ghost predicate OnlyTable(h0: Heap, d0: Dir, h1: Heap, d1: Dir, pde: nat)
    requires |d0.tables| == |d0.virt| == |d1.tables| == |d1.virt| == PT_SIZE && pde < PT_SIZE
  {
    && d1.virt == d0.virt[pde := d1.virt[pde]]
    && d1.tables == d0.tables[pde := d1.tables[pde]]
    && (d0.virt[pde] != 0 ==> d1.virt[pde] == d0.virt[pde])
    && (d0.virt[pde] == 0 ==> d1.virt[pde] !in h0)
    && d1.virt[pde] != 0
    && h1.Keys == h0.Keys + {d1.virt[pde]}
    && (forall t :: t in h0 && t != d1.virt[pde] ==> h1[t] == h0[t])
  }

  /** The pages from `a` on have the entries `es`. */
  ghost predicate RunWalks(h: Heap, d: Dir, a: nat, es: seq<nat>)
    requires Walkable(h, d)
  {
    forall va: nat :: a <= va < a + |es| * PAGE_SIZE ==>
      Mapped(d, va) && EntryOf(h, d, va) == es[(va - a) / PAGE_SIZE]
  }

  /** The `n` pages from `a` on walk to the consecutive bytes from `phys` on, with `flags`. */
  ghost predicate MapsTo(h: Heap, d: Dir, a: nat, n: nat, phys: nat, flags: nat)
    requires Walkable(h, d)
  {
    forall va: nat :: a <= va < a + n * PAGE_SIZE ==>
      Mapped(d, va) && ToPhys(h, d, va) == phys + (va - a) && Flags(EntryOf(h, d, va)) == flags
  }

  /** Page `i` from `a` on walks to frame `fs[i]`, with `flags`. */
  ghost predicate MapsToFrames(h: Heap, d: Dir, a: nat, fs: seq<nat>, flags: nat)
    requires Walkable(h, d)
  {
    forall va: nat :: a <= va < a + |fs| * PAGE_SIZE ==>
      && Mapped(d, va)
      && ToPhys(h, d, va) == fs[(va - a) / PAGE_SIZE] * PAGE_SIZE + va % PAGE_SIZE
      && Flags(EntryOf(h, d, va)) == flags
  }

  /** Every page mapped before, other than the `n` pages from `a` on, has the entry it had. */
  ghost predicate OthersWalk(h0: Heap, d0: Dir, h: Heap, d: Dir, a: nat, n: nat)
    requires Walkable(h0, d0) && Walkable(h, d)
  {
    forall va: nat :: Mapped(d0, va) && !(a <= va < a + n * PAGE_SIZE) ==>
      Mapped(d, va) && EntryOf(h, d, va) == EntryOf(h0, d0, va)
  }

  lemma PageOfRun(h1: Heap, h2: Heap, d: Dir, a: nat, es: seq<nat>, va: nat)
    requires Walkable(h1, d) && Pde(a) < PT_SIZE && d.virt[Pde(a)] != 0
    requires a % PAGE_SIZE == 0 && Pte(a) + |es| <= PT_SIZE && a <= va < a + |es| * PAGE_SIZE
    requires var t := d.virt[Pde(a)]; h2 == h1[t := Splice(h1[t], Pte(a), es)]
    ensures Walkable(h2, d) && Mapped(d, va) && EntryOf(h2, d, va) == es[(va - a) / PAGE_SIZE]
  {
    var i, off := (va - a) / PAGE_SIZE, (va - a) % PAGE_SIZE;
    assert va == a + i * PAGE_SIZE + off;
    PagesOfRun(a, |es|, i, off);
    WalkAfterSplice(h1, d, Pde(a), Pte(a), es, va);
  }

  lemma PageOutsideRun(h0: Heap, d0: Dir, h1: Heap, h2: Heap, d: Dir, a: nat, es: seq<nat>, va: nat)
    requires Walkable(h0, d0) && Walkable(h1, d) && Pde(a) < PT_SIZE
    requires OnlyTable(h0, d0, h1, d, Pde(a))
    requires d0.virt[Pde(a)] != 0 ==> h1[d.virt[Pde(a)]] == h0[d0.virt[Pde(a)]]
    requires a % PAGE_SIZE == 0 && Pte(a) + |es| <= PT_SIZE
    requires Mapped(d0, va) && !(a <= va < a + |es| * PAGE_SIZE)
    requires var t := d.virt[Pde(a)]; h2 == h1[t := Splice(h1[t], Pte(a), es)]
    ensures Walkable(h2, d) && Mapped(d, va) && EntryOf(h2, d, va) == EntryOf(h0, d0, va)
  {
    RunOfPages(a, |es|, va);
    WalkAfterSplice(h1, d, Pde(a), Pte(a), es, va);
    if Pde(va) != Pde(a) {
      assert d.virt[Pde(va)] == d0.virt[Pde(va)];
    }
  }

  /** After `es` is written for the pages from `a` on, those pages have the entries `es` and every
      page that was mapped before and is not among them has the entry it had. */
  lemma RunMapped(h0: Heap, d0: Dir, h1: Heap, h2: Heap, d: Dir, a: nat, es: seq<nat>)
    requires Walkable(h0, d0) && Walkable(h1, d) && Pde(a) < PT_SIZE
    requires OnlyTable(h0, d0, h1, d, Pde(a))
    requires d0.virt[Pde(a)] != 0 ==> h1[d.virt[Pde(a)]] == h0[d0.virt[Pde(a)]]
    requires a % PAGE_SIZE == 0 && Pte(a) + |es| <= PT_SIZE
    requires var t := d.virt[Pde(a)]; h2 == h1[t := Splice(h1[t], Pte(a), es)]
    ensures Walkable(h2, d) && OnlyTable(h0, d0, h2, d, Pde(a))
    ensures RunWalks(h2, d, a, es)
    ensures OthersWalk(h0, d0, h2, d, a, |es|)
  {
    WalkAfterSplice(h1, d, Pde(a), Pte(a), es, a);
    forall va: nat | a <= va < a + |es| * PAGE_SIZE
      ensures Mapped(d, va) && EntryOf(h2, d, va) == es[(va - a) / PAGE_SIZE]
    {
      PageOfRun(h1, h2, d, a, es, va);
    }
    forall va: nat | Mapped(d0, va) && !(a <= va < a + |es| * PAGE_SIZE)
      ensures Mapped(d, va) && EntryOf(h2, d, va) == EntryOf(h0, d0, va)
    {
      PageOutsideRun(h0, d0, h1, h2, d, a, es, va);
    }
  }

  lemma FrameOfEntry(phys: nat, i: nat, flags: nat)
    requires phys % PAGE_SIZE == 0 && flags < PAGE_SIZE
    ensures FrameNo(Or(phys + i * PAGE_SIZE, flags)) == phys / PAGE_SIZE + i
    ensures Flags(Or(phys + i * PAGE_SIZE, flags)) == flags
  {
    var k := phys / PAGE_SIZE + i;
    assert phys + i * PAGE_SIZE == k * PAGE_SIZE;
    OrIsSum(k * PAGE_SIZE, flags);
    QuotientOf(k, flags);
  }

  lemma QuotientOf(k: nat, flags: nat)
    requires flags < PAGE_SIZE
    ensures FrameNo(k * PAGE_SIZE + flags) == k && Flags(k * PAGE_SIZE + flags) == flags
  {
  }

  lemma SumOfPages(phys: nat, a: nat, va: nat, i: nat)
    requires phys % PAGE_SIZE == 0 && a % PAGE_SIZE == 0 && a <= va && i == (va - a) / PAGE_SIZE
    ensures (phys / PAGE_SIZE + i) * PAGE_SIZE + va % PAGE_SIZE == phys + (va - a)
  {
    assert va % PAGE_SIZE == (va - a) % PAGE_SIZE;
  }

  /** Consecutive entries map consecutive bytes, with the flags they were made with. */
  lemma EntriesMap(h: Heap, d: Dir, a: nat, n: nat, phys: nat, flags: nat)
    requires Walkable(h, d) && phys % PAGE_SIZE == 0 && flags < PAGE_SIZE && a % PAGE_SIZE == 0
    requires RunWalks(h, d, a, Frames.Entries(phys, n, flags))
    ensures MapsTo(h, d, a, n, phys, flags)
  {
    var es := Frames.Entries(phys, n, flags);
    forall va: nat | a <= va < a + n * PAGE_SIZE
      ensures Mapped(d, va) && ToPhys(h, d, va) == phys + (va - a) && Flags(EntryOf(h, d, va)) == flags
    {
      ByteMaps(h, d, a, n, phys, flags, es, va);
    }
  }

  lemma ByteMaps(h: Heap, d: Dir, a: nat, n: nat, phys: nat, flags: nat, es: seq<nat>, va: nat)
    requires Walkable(h, d) && phys % PAGE_SIZE == 0 && flags < PAGE_SIZE && a % PAGE_SIZE == 0
    requires es == Frames.Entries(phys, n, flags) && RunWalks(h, d, a, es) && a <= va < a + n * PAGE_SIZE
    ensures Mapped(d, va) && ToPhys(h, d, va) == phys + (va - a) && Flags(EntryOf(h, d, va)) == flags
  {
    var i := (va - a) / PAGE_SIZE;
    PageIndex(va - a, n);
    EntryMaps(es[i], phys, flags, a, va, i);
  }

  lemma PageIndex(x: nat, n: nat)
    requires x < n * PAGE_SIZE
    ensures x / PAGE_SIZE < n
  {
  }

  lemma EntryMaps(e: nat, phys: nat, flags: nat, a: nat, va: nat, i: nat)
    requires phys % PAGE_SIZE == 0 && flags < PAGE_SIZE && a % PAGE_SIZE == 0 && a <= va
    requires i == (va - a) / PAGE_SIZE && e == Or(phys + i * PAGE_SIZE, flags)
    ensures FrameNo(e) * PAGE_SIZE + va % PAGE_SIZE == phys + (va - a) && Flags(e) == flags
  {
    FrameOfEntry(phys, i, flags);
    SumOfPages(phys, a, va, i);
  }

  lemma FoundMap(h: Heap, d: Dir, a: nat, fs: seq<nat>, flags: nat)
    requires Walkable(h, d) && flags < PAGE_SIZE
    requires RunWalks(h, d, a, Frames.EntriesFor(fs, flags))
    ensures MapsToFrames(h, d, a, fs, flags)
  {
    forall va: nat | a <= va < a + |fs| * PAGE_SIZE
      ensures Mapped(d, va) && Flags(EntryOf(h, d, va)) == flags
      ensures ToPhys(h, d, va) == fs[(va - a) / PAGE_SIZE] * PAGE_SIZE + va % PAGE_SIZE
    {
      var i := (va - a) / PAGE_SIZE;
      PageIndex(va - a, |fs|);
      FrameOfEntry(0, fs[i], flags);
      assert Frames.EntriesFor(fs, flags)[i] == Or(0 + fs[i] * PAGE_SIZE, flags);
    }
  }

  /** The page entries numbered `lo..hi`, counted through the whole directory, have lost their
      present bit; nothing else has changed. */
  ghost predicate Unmapped(h0: Heap, h: Heap, d: Dir, lo: nat, hi: nat)
    requires Walkable(h0, d) && Walkable(h, d)
  {
    && h.Keys == h0.Keys
    && (forall t :: t in h0 && t !in d.virt ==> h[t] == h0[t])
    && (forall i, k :: 0 <= i < PT_SIZE && 0 <= k < PT_SIZE && d.virt[i] != 0 ==>
          if lo <= i * PT_SIZE + k < hi then LostPresent(h0[d.virt[i]][k], h[d.virt[i]][k])
          else h[d.virt[i]][k] == h0[d.virt[i]][k])
  }

  lemma UnmappedNext(h0: Heap, h: Heap, h': Heap, d: Dir, lo: nat, p: nat, k: nat)
    requires Walkable(h0, d) && Walkable(h, d) && p < PT_SIZE && k < PT_SIZE && d.virt[p] != 0
    requires lo <= p * PT_SIZE + k && Unmapped(h0, h, d, lo, p * PT_SIZE + k)
    requires var t := d.virt[p]; h' == h[t := SetEntry(h[t], k, ClearPresent(h[t][k]))]
    ensures Walkable(h', d) && Unmapped(h0, h', d, lo, p * PT_SIZE + k + 1)
  {
    var t := d.virt[p];
    PresentCleared(h[t][k]);
    forall i, j | 0 <= i < PT_SIZE && 0 <= j < PT_SIZE && d.virt[i] != 0
      ensures if lo <= i * PT_SIZE + j < p * PT_SIZE + k + 1 then LostPresent(h0[d.virt[i]][j], h'[d.virt[i]][j])
              else h'[d.virt[i]][j] == h0[d.virt[i]][j]
    {
      if i != p {
        assert d.virt[i] != t;
        assert h'[d.virt[i]] == h[d.virt[i]];
      }
      EntryNumbers(i, j, p, k);
    }
  }

  lemma EntryNumbers(i: nat, j: nat, p: nat, k: nat)
    requires j < PT_SIZE && k < PT_SIZE
    ensures i * PT_SIZE + j == p * PT_SIZE + k <==> i == p && j == k
  {
  }

  lemma UnmappedAll(h0: Heap, h: Heap, d: Dir, lo: nat, hi: nat, hi': nat)
    requires Walkable(h0, d) && Walkable(h, d) && Unmapped(h0, h, d, lo, hi)
    requires PT_SIZE * PT_SIZE <= hi <= hi'
    ensures Unmapped(h0, h, d, lo, hi')
  {
  }

  class PageDir {
    var tables: seq<nat>
    var virt: seq<nat>

    constructor (d: Dir)
      ensures Val() == d
    {
      tables, virt := d.tables, d.virt;
    }

    function Val(): Dir
      reads this
    {
      Dir(tables, virt)
    }
  }

  class Kernel {
    /** Page tables by their kernel pointer. */
    var heap: Heap
    /** What each physical page frame holds. */
    var mem: nat -> Page
    const bitmap: Bitmap
    const layout: Memory

    constructor (bitmap: Bitmap, mem: nat -> Page, layout: Memory)
      ensures this.bitmap == bitmap && this.mem == mem && heap == map[] && this.layout == layout
    {
      this.bitmap, this.mem, heap, this.layout := bitmap, mem, map[], layout;
    }

    /** A fresh zeroed table from the kernel heap, and its page-aligned physical address. */
    method AllocPt() returns (t: nat, phys: nat)
      modifies this`heap
      ensures t != 0 && t !in old(heap) && heap == old(heap)[t := Zeros()]
      ensures phys == layout.phys(t) && phys % PAGE_SIZE == 0
    {
      t := FreshPointer();
      phys := layout.phys(t);
      heap := heap[t := Zeros()];
    }

    method FreshPointer() returns (t: nat)
      ensures t != 0 && t !in heap && layout.phys(t) % PAGE_SIZE == 0
    {
      ghost var free := layout.next(MaxKey(heap.Keys));
      assert free !in heap && layout.phys(free) % PAGE_SIZE == 0;
      t :| t != 0 && t !in heap && layout.phys(t) % PAGE_SIZE == 0;
    }

    /** Makes sure the directory has a table at `pde`. */
    method MapAllocPt(pd: PageDir, pde: nat, flags: nat) returns (t: nat)
      requires Walkable(heap, pd.Val()) && pde < PT_SIZE && (IsPresent(pd.tables[pde]) ==> pd.virt[pde] != 0)
      modifies this`heap, pd
      ensures t != 0 && pd.virt == old(pd.virt)[pde := t] && t in heap && |heap[t]| == PT_SIZE
      ensures |pd.tables| == PT_SIZE && pd.tables == old(pd.tables)[pde := pd.tables[pde]]
      ensures Walkable(heap, pd.Val())
      ensures old(IsPresent(pd.tables[pde])) ==>
                heap == old(heap) && t == old(pd.virt[pde]) && IsPresent(pd.tables[pde])
                && (IsUser(pd.tables[pde]) <==> old(IsUser(pd.tables[pde])) || IsUser(flags))
      ensures !old(IsPresent(pd.tables[pde])) ==>
                t !in old(heap) && heap == old(heap)[t := Zeros()]
                && (IsPresent(pd.tables[pde]) <==> IsPresent(flags))
                && (IsUser(pd.tables[pde]) <==> IsUser(flags))
      ensures flags < PAGE_SIZE ==> SlotEntry(layout.phys, old(pd.tables[pde]), pd.tables[pde], t, flags)
    {
      ghost var e0 := pd.tables[pde];
      var e := ClearAccessed(pd.tables[pde]);
      AccessedKeepsFlags(pd.tables[pde]);
      pd.tables := pd.tables[pde := e];
      if IsPresent(e) {
        OrPresent(e, flags);
        OrUser(e, flags);
        EntryGains(e0, flags);
        pd.tables := pd.tables[pde := Or(e, flags)];
        t := pd.virt[pde];
        return;
      }
      var phys: nat;
      t, phys := AllocPt();
      PageHasNoFlags(phys);
      OrPresent(phys, flags);
      OrUser(phys, flags);
      EntryNew(phys, flags);
      pd.tables := pd.tables[pde := Or(phys, flags)];
      pd.virt := pd.virt[pde := t];
    }

    /** Reserves `n` virtual pages and a table for them. */
    method KnmmapTable(buddy: Buddy, pd: PageDir, n: nat, flags: nat) returns (v: Option<nat>)
      requires buddy.Ok() && buddy.first + buddy.tops <= PT_SIZE
      requires DirOk(heap, pd.Val()) && 1 <= n <= PT_SIZE
      modifies this`heap, pd, buddy
      ensures buddy.Ok()
      ensures HeadReadable(old(buddy.View()), BuddyOrder(n))
      ensures (buddy.View(), v) == Alloc(old(buddy.View()), n)
      ensures v.None? ==> heap == old(heap) && pd.Val() == old(pd.Val()) && buddy.live == old(buddy.live)
      ensures v.Some? ==>
                var o, a := BuddyOrder(n), v.value;
                && buddy.live == old(buddy.live) + {Block(o, Blk(o, a))}
                && Aligned(o, a) && n <= Pow2(o)
                && a % PAGE_SIZE == 0 && Pte(a) + n <= PT_SIZE
                && buddy.first <= Pde(a) < buddy.first + buddy.tops
                && Walkable(heap, pd.Val())
                && OnlyTable(old(heap), old(pd.Val()), heap, pd.Val(), Pde(a))
                && (old(pd.virt[Pde(a)]) == 0 ==> heap[pd.virt[Pde(a)]] == Zeros())
                && (old(pd.virt[Pde(a)]) != 0 ==> heap[pd.virt[Pde(a)]] == old(heap[pd.virt[Pde(a)]]))
                && (old(pd.virt[Pde(a)]) != 0 || IsPresent(flags) ==> Marked(pd.Val()))
                && (IsUser(pd.tables[Pde(a)]) <==>
                      old(IsUser(pd.tables[Pde(a)]) && IsPresent(pd.tables[Pde(a)])) || IsUser(flags))
                && (flags < PAGE_SIZE ==>
                      SlotEntry(layout.phys, old(pd.tables[Pde(a)]), pd.tables[Pde(a)], pd.virt[Pde(a)], flags))
    {
      v := buddy.AllocFramesMaxOrder(n);
      if v.Some? {
        var a := v.value;
        KernelRun(buddy.View(), n, a);
        var t := MapAllocPt(pd, Pde(a), flags);
      }
    }

    /** Writes page entries into the table of the pages starting at `a`. */
    method WriteEntries(pd: PageDir, a: nat, es: seq<nat>)
      requires Walkable(heap, pd.Val()) && Pde(a) < PT_SIZE && pd.virt[Pde(a)] != 0
      requires a % PAGE_SIZE == 0 && Pte(a) + |es| <= PT_SIZE
      modifies this`heap
      ensures heap == var t := pd.virt[Pde(a)]; old(heap)[t := Splice(old(heap)[t], Pte(a), es)]
    {
      var t := pd.virt[Pde(a)];
      var pt := heap[t];
      for i := 0 to |es|
        invariant |pt| == PT_SIZE
        invariant forall k :: 0 <= k < PT_SIZE ==>
                    pt[k] == if Pte(a) <= k < Pte(a) + i then es[k - Pte(a)] else heap[t][k]
      {
        pt := pt[Pte(a) + i := es[i]];
      }
      assert pt == Splice(heap[t], Pte(a), es);
      heap := heap[t := pt];
    }

    /** Maps `n` pages of fresh virtual space: to the frames from `phys` on, or to frames found
        in the bitmap when `phys` is 0. */
    method Knmmap(buddy: Buddy, pd: PageDir, phys: nat, n: nat, flags: nat) returns (v: Option<nat>)
      requires buddy.Ok() && buddy.first + buddy.tops <= PT_SIZE && bitmap.Ok()
      requires DirOk(heap, pd.Val()) && 1 <= n <= PT_SIZE && flags < PAGE_SIZE
      requires phys % PAGE_SIZE == 0
      requires phys != 0 ==>
                 Reaches(bitmap.frames.Length, phys / PAGE_SIZE / Frames.WORD, phys / PAGE_SIZE % Frames.WORD, n)
      requires phys == 0 ==>
                 var r := Frames.FindAllocFrames(bitmap.Used(), bitmap.frames.Length, n);
                 FrameTheorems.Below(r.frames, Frames.WORD * bitmap.frames.Length)
      modifies this`heap, pd, buddy, bitmap.frames
      ensures buddy.Ok() && bitmap.Ok() && Walkable(heap, pd.Val())
      ensures IsPresent(flags) ==> DirOk(heap, pd.Val())
      ensures Linked(layout.phys, old(pd.Val())) ==> Linked(layout.phys, pd.Val())
      ensures HeadReadable(old(buddy.View()), BuddyOrder(n))
      ensures v.None? <==>
                || Alloc(old(buddy.View()), n).1.None?
                || (phys == 0 && !Frames.FindAllocFrames(old(bitmap.Used()), bitmap.frames.Length, n).ok)
      ensures v.Some? ==> (buddy.View(), v) == Alloc(old(buddy.View()), n)
      ensures v.Some? ==>
                && v.value % PAGE_SIZE == 0 && Pte(v.value) + n <= PT_SIZE
                && buddy.first <= Pde(v.value) < buddy.first + buddy.tops
                && OnlyTable(old(heap), old(pd.Val()), heap, pd.Val(), Pde(v.value))
                && (IsUser(pd.tables[Pde(v.value)]) <==>
                      IsUser(flags)
                      || old(IsUser(pd.tables[Pde(v.value)]) && IsPresent(pd.tables[Pde(v.value)])))
                && SlotEntry(layout.phys, old(pd.tables[Pde(v.value)]), pd.tables[Pde(v.value)],
                             pd.virt[Pde(v.value)], flags)
      ensures v.Some? ==> OthersWalk(old(heap), old(pd.Val()), heap, pd.Val(), v.value, n)
      ensures v.Some? && phys != 0 ==>
                && MapsTo(heap, pd.Val(), v.value, n, phys, flags)
                && bitmap.Used() == old(bitmap.Used())
                                  + Frames.Marks(phys / PAGE_SIZE / Frames.WORD, phys / PAGE_SIZE % Frames.WORD, n)
      ensures v.Some? && phys == 0 ==>
                var r := Frames.FindAllocFrames(old(bitmap.Used()), bitmap.frames.Length, n);
                |r.frames| == n && MapsToFrames(heap, pd.Val(), v.value, r.frames, flags) && bitmap.Used() == r.used
      ensures v.Some? ==>
                var o := BuddyOrder(n);
                && Aligned(o, v.value)
                && buddy.live == old(buddy.live) + {Block(o, Blk(o, v.value))}
                && forall x :: Blk(o, x) == Blk(o, v.value) ==> !LiveAt(old(buddy.live), x)
    {
      ghost var h0, d0 := heap, pd.Val();
      AllocValid(buddy.View(), buddy.live, n);
      v := KnmmapTable(buddy, pd, n, flags);
      if v.None? {
        return;
      }
      var a := v.value;
      ghost var h1, d := heap, pd.Val();
      SlotLinked(layout.phys, d0, d, Pde(a), flags);
      if phys != 0 {
        var es := bitmap.AllocNframes(n, phys, flags);
        WriteEntries(pd, a, es);
        RunMapped(h0, d0, h1, heap, d, a, es);
        EntriesMap(heap, d, a, n, phys, flags);
      } else {
        ghost var fs := Frames.FindAllocFrames(bitmap.Used(), bitmap.frames.Length, n).frames;
        FrameTheorems.FoundCount(bitmap.Used(), bitmap.frames.Length, n, 0, []);
        var ok, es := bitmap.FindAllocNframes(n, flags);
        WriteEntries(pd, a, es);
        RunMapped(h0, d0, h1, heap, d, a, es);
        if !ok {
          return None;
        }
        FoundMap(heap, d, a, fs, flags);
      }
    }

    method UnmapPage(pd: PageDir, pde: nat, pte: nat)
      requires Walkable(heap, pd.Val()) && pde < PT_SIZE && pte < PT_SIZE && pd.virt[pde] != 0
      modifies this`heap
      ensures Walkable(heap, pd.Val())
      ensures heap == var t := pd.virt[pde];
                      old(heap)[t := SetEntry(old(heap)[t], pte, ClearPresent(old(heap)[t][pte]))]
      ensures LostPresent(old(heap)[pd.virt[pde]][pte], heap[pd.virt[pde]][pte])
    {
      PresentCleared(heap[pd.virt[pde]][pte]);
      var t := pd.virt[pde];
      heap := heap[t := SetEntry(heap[t], pte, ClearPresent(heap[t][pte]))];
    }

    /** Clears the present bit of `npages` page entries, from entry `pte` of table `pde` on
        through the following tables, up to the end of the directory. */
    method UnmapPages(pd: PageDir, pde: nat, pte: nat, npages: nat)
      requires Walkable(heap, pd.Val()) && pte < PT_SIZE
      requires forall i :: pde <= i < PT_SIZE && i * PT_SIZE < pde * PT_SIZE + pte + npages ==> pd.virt[i] != 0
      modifies this`heap
      ensures Walkable(heap, pd.Val())
      ensures Unmapped(old(heap), heap, pd.Val(), pde * PT_SIZE + pte, pde * PT_SIZE + pte + npages)
    {
      var start := pde * PT_SIZE + pte;
      var p, overflow := pde, 0;
      for i := 0 to npages
        invariant Walkable(heap, pd.Val())
        invariant pde <= p && 0 <= pte + overflow + i <= PT_SIZE && p * PT_SIZE + pte + overflow + i == start + i
        invariant Unmapped(old(heap), heap, pd.Val(), start, start + i)
      {
        if pte + overflow + i >= PT_SIZE {
          overflow := overflow - PT_SIZE;
          p := p + 1;
        }
        if p >= PT_SIZE {
          UnmappedAll(old(heap), heap, pd.Val(), start, start + i, start + npages);
          return;
        }
        ghost var h := heap;
        UnmapPage(pd, p, overflow + pte + i);
        UnmappedNext(old(heap), h, heap, pd.Val(), start, p, overflow + pte + i);
      }
    }
  }

  lemma EntryGains(e0: nat, flags: nat)
    ensures FlagsAdded(e0, flags, Or(ClearAccessed(e0), flags))
    ensures flags < PAGE_SIZE ==> FrameNo(Or(ClearAccessed(e0), flags)) == FrameNo(e0)
  {
    AddsFlags(e0, flags);
    if flags < PAGE_SIZE {
      FrameOr(ClearAccessed(e0), flags, 12);
      FrameUnset(e0, ACCESSED_BIT, 12);
    }
  }

  lemma EntryNew(phys: nat, flags: nat)
    requires phys % PAGE_SIZE == 0
    ensures flags < PAGE_SIZE ==> FrameNo(Or(phys, flags)) * PAGE_SIZE == phys && Flags(Or(phys, flags)) == flags
  {
    if flags < PAGE_SIZE {
      FrameOfEntry(phys, 0, flags);
    }
  }

  /** Asking for a table keeps the directory's physical entries and pointers together. */
  lemma SlotLinked(phys: nat -> nat, d0: Dir, d: Dir, pde: nat, flags: nat)
    requires |d0.tables| == |d0.virt| == |d.tables| == |d.virt| == PT_SIZE && pde < PT_SIZE
    requires d.tables == d0.tables[pde := d.tables[pde]] && d.virt == d0.virt[pde := d.virt[pde]]
    requires SlotEntry(phys, d0.tables[pde], d.tables[pde], d.virt[pde], flags)
    requires IsPresent(d0.tables[pde]) ==> d.virt[pde] == d0.virt[pde]
    ensures Linked(phys, d0) ==> Linked(phys, d)
  {
  }

  ghost function MaxKey(s: set<nat>): (m: nat)
    ensures forall x :: x in s ==> x <= m
  {
    if s == {} then 0
    else
      var x :| x in s;
      var m := MaxKey(s - {x});
      assert forall y :: y in s ==> y == x || y in s - {x};
      if x > m then x else m
  }
}
