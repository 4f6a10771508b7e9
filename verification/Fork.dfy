/** Cloning an address space: every user page is copied to a frame of its own, everything else
    is shared.

    The predicates that gather several facts about a state compare their body with `true`: the
    verifier then passes each from one contract to the next as one fact. */
module Fork {
  import opened Basics
  import opened BuddyBlocks
  import opened BuddySpec
  import opened BuddyInvariant
  import opened BuddyTheorems
  import opened BuddyRelease
  import opened BuddyAllocator
  import opened PageTables
  import opened FrameBitmap
  import opened Mmu
  import Frames = FrameSpec
  import FrameTheorems

  function Store(m: nat -> Page, f: nat, p: Page): nat -> Page {
    (x: nat) => if x == f then p else m(x)
  }

  /** Table `t` is not reached through the slots `lo..hi`. */
  predicate Outside(d: Dir, lo: nat, hi: nat, t: nat)
    requires hi <= |d.virt|
  {
    forall i :: lo <= i < hi ==> d.virt[i] != t
  }

  /** What the temporary mappings of a clone may touch: the tables of the kernel's mapping area,
      reached through the directory slots `lo..hi`.  No slot becomes or ceases to be a user's. */
  ghost predicate KernelOnly(h0: Heap, d0: Dir, h: Heap, d: Dir, lo: nat, hi: nat)
    requires Walkable(h0, d0) && Walkable(h, d) && hi <= PT_SIZE
  {
    && h0.Keys <= h.Keys
    && (forall i :: 0 <= i < PT_SIZE && !(lo <= i < hi) ==> d.virt[i] == d0.virt[i])
    && (forall i :: 0 <= i < PT_SIZE ==> UserPresent(d.tables[i]) == UserPresent(d0.tables[i]))
    && (forall i :: 0 <= i < PT_SIZE && d0.virt[i] != 0 ==> d.virt[i] == d0.virt[i])
    && (forall i :: 0 <= i < PT_SIZE && d0.virt[i] == 0 && d.virt[i] != 0 ==> d.virt[i] !in h0)
    && (forall t {:trigger Outside(d, lo, hi, t)} :: t in h0 && Outside(d, lo, hi, t) ==> h[t] == h0[t])
  }

  /** Outside the mapping area the directory's physical entries are as before, bit for bit. */
  predicate TablesKept(d0: Dir, d: Dir, lo: nat, hi: nat) {
    && |d0.tables| == PT_SIZE && |d.tables| == PT_SIZE
    && (forall i :: 0 <= i < PT_SIZE && !(lo <= i < hi) ==> d.tables[i] == d0.tables[i])
  }

  lemma KernelOnlyTrans(h0: Heap, d0: Dir, h1: Heap, d1: Dir, h2: Heap, d2: Dir, lo: nat, hi: nat)
    requires Walkable(h0, d0) && Walkable(h1, d1) && Walkable(h2, d2) && hi <= PT_SIZE
    requires KernelOnly(h0, d0, h1, d1, lo, hi) && KernelOnly(h1, d1, h2, d2, lo, hi)
    ensures KernelOnly(h0, d0, h2, d2, lo, hi)
  {
    forall t | t in h0 && Outside(d2, lo, hi, t) ensures h2[t] == h0[t] {
      assert forall i :: lo <= i < hi && d1.virt[i] != 0 ==> d2.virt[i] == d1.virt[i];
      assert Outside(d1, lo, hi, t);
    }
  }

  /** Temporary mappings came and went: the kernel's tables aside everything is as before. */
  ghost predicate Passed(h0: Heap, d0: Dir, h: Heap, d: Dir, lo: nat, hi: nat) {
    true == (
    && Walkable(h0, d0) && Walkable(h, d) && hi <= PT_SIZE
    && KernelOnly(h0, d0, h, d, lo, hi) && TablesKept(d0, d, lo, hi))
  }

  /** A mapping made and unmade in one slot of the area. */
  lemma MapUnmapKernelOnly(h0: Heap, d0: Dir, h1: Heap, h2: Heap, d: Dir, pde: nat, e: nat, n: nat, lo: nat, hi: nat)
    requires Walkable(h0, d0) && Walkable(h1, d) && Walkable(h2, d) && hi <= PT_SIZE
    requires lo <= pde < hi && OnlyTable(h0, d0, h1, d, pde)
    requires UserPresent(d.tables[pde]) == UserPresent(d0.tables[pde])
    requires pde * PT_SIZE <= e && e + n <= pde * PT_SIZE + PT_SIZE && Unmapped(h1, h2, d, e, e + n)
    ensures Passed(h0, d0, h2, d, lo, hi)
  {
    forall t | t in h0 && Outside(d, lo, hi, t) ensures h2[t] == h0[t] {
      assert t != d.virt[pde];
      if t in d.virt {
        var i :| 0 <= i < PT_SIZE && d.virt[i] == t;
        assert i != pde;
        forall k | 0 <= k < PT_SIZE ensures h2[t][k] == h1[t][k] {
          OtherTable(i, k, pde, e, n);
        }
        assert h2[t] == h1[t];
      }
    }
  }

  lemma OtherTable(i: nat, k: nat, pde: nat, e: nat, n: nat)
    requires i != pde && k < PT_SIZE
    requires pde * PT_SIZE <= e && e + n <= pde * PT_SIZE + PT_SIZE
    ensures !(e <= i * PT_SIZE + k < e + n)
  {
    if i < pde {
      assert i * PT_SIZE + PT_SIZE <= pde * PT_SIZE;
    } else {
      assert pde * PT_SIZE + PT_SIZE <= i * PT_SIZE;
    }
  }

  /** The allocator of kernel virtual pages is in the valid state `y`. */
  ghost predicate At(buddy: Buddy, y: Sys)
    reads buddy
  {
    true == (
    Valid(y.s, y.live) && buddy.View() == y.s && buddy.live == y.live)
  }

  /** The allocator can supply a page for a temporary mapping. */
  ghost predicate MapsOne(y: Sys) {
    Shape(y.s) && HeadReadable(y.s, BuddyOrder(1)) && Alloc(y.s, 1).1.Some?
  }

  lemma MapsOneIff(y: Sys)
    requires Valid(y.s, y.live)
    ensures MapsOne(y) <==> exists k :: InRange(y.s, 0, k) && !HasLive(y.live, 0, k)
  {
    OrderOfOne();
    AllocFailsIff(y.s, y.live, 1);
  }

  /** `can` says whether it can.  Here and below the quantifier keeps the question out of the proofs
      that only carry the answer. */
  ghost predicate CanMap(y: Sys, can: bool) {
    true == (forall z {:trigger MapsOne(z)} :: z == y ==> (can <==> MapsOne(z)))
  }

  /** `free` single frames are left to copy pages to. */
  ghost predicate Left(words: nat, used: set<nat>, free: nat) {
    true == (forall u, w {:trigger FrameTheorems.Singles(u, w)} :: u == used && w == words ==>
               |FrameTheorems.Singles(u, w)| == free)
  }

  /** There is room to clone `pages` pages: a page to map them with and frames to copy them to. */
  predicate CanClone(can: bool, free: nat, pages: nat) {
    pages == 0 || (can && pages <= free)
  }

  /** The bitmap and the directory are sound, and the mapping area holds no user table. */
  ghost predicate Ready(k: Kernel, buddy: Buddy, pd: PageDir)
    reads k, k.bitmap.frames, pd
  {
    true == (
    && buddy.first + buddy.tops <= PT_SIZE
    && k.bitmap.Ok() && FrameTheorems.Uniform(k.bitmap.Used()) && 0 in k.bitmap.Used()
    && DirOk(k.heap, pd.Val()) && Linked(k.layout.phys, pd.Val())
    && (forall i :: buddy.first <= i < buddy.first + buddy.tops ==> !UserPresent(pd.tables[i])))
  }

  /** Marking a frame in use changes nothing. */
  lemma OneMark(used: set<nat>, f: nat, phys: nat)
    requires f in used && phys == f * PAGE_SIZE
    ensures phys / PAGE_SIZE == f && phys % PAGE_SIZE == 0
    ensures used + Frames.Marks(phys / PAGE_SIZE / Frames.WORD, phys / PAGE_SIZE % Frames.WORD, 1) == used
  {
    Frames.ShortRunMarked(f / Frames.WORD, f % Frames.WORD, 1);
  }

  lemma WalkFrame(h: Heap, d: Dir, va: nat)
    requires Walkable(h, d) && Mapped(d, va)
    ensures ToPhys(h, d, va) / PAGE_SIZE == FrameNo(EntryOf(h, d, va))
  {
  }

  /** The source page is read, and the destination frame written, through the same directory. */
  lemma CopyWalks(h0: Heap, d0: Dir, h: Heap, d: Dir, a: nat, src: nat, dest: nat)
    requires Walkable(h0, d0) && Walkable(h, d) && Mapped(d0, src) && Pde(src) != Pde(a)
    requires a % PAGE_SIZE == 0 && OthersWalk(h0, d0, h, d, a, 1)
    requires exists flags :: MapsTo(h, d, a, 1, dest * PAGE_SIZE, flags)
    ensures ToPhys(h, d, src) / PAGE_SIZE == FrameNo(EntryOf(h0, d0, src))
    ensures ToPhys(h, d, a) / PAGE_SIZE == dest
  {
    SplitAddr(a);
    JoinAddr(Pde(a), Pte(a), if a <= src < a + PAGE_SIZE then src - a else 0);
    assert !(a <= src < a + 1 * PAGE_SIZE);
    WalkFrame(h0, d0, src);
  }

  /** Releases a region: the virtual pages go back to the buddy allocator and their entries lose
      the present bit.  The source also tries to release frames in the bitmap, under the virtual
      address; that step is left out. */
  method KnmunmapContiguous(k: Kernel, buddy: Buddy, pd: PageDir, v: nat, n: nat, ghost b: Block)
    requires buddy.Ok() && b in buddy.live && v == Base(b.order, b.num) && n <= Pow2(b.order)
    requires Walkable(k.heap, pd.Val()) && Pde(v) < PT_SIZE && Pte(v) + n <= PT_SIZE && pd.virt[Pde(v)] != 0
    modifies k`heap, buddy
    ensures buddy.View() == FreeFrames(AsWritten, old(buddy.View()), v, n)
    ensures buddy.live == old(buddy.live) - {b}
    ensures Walkable(k.heap, pd.Val())
    ensures var e := Pde(v) * PT_SIZE + Pte(v); Unmapped(old(k.heap), k.heap, pd.Val(), e, e + n)
  {
    buddy.FreeFrames(v, n, b);
    OneTable(Pde(v), Pte(v), n);
    k.UnmapPages(pd, Pde(v), Pte(v), n);
  }

  lemma OneTable(pde: nat, pte: nat, n: nat)
    requires pte + n <= PT_SIZE
    ensures forall i :: pde <= i < PT_SIZE && i * PT_SIZE < pde * PT_SIZE + pte + n ==> i == pde
  {
    forall i | pde < i < PT_SIZE ensures i * PT_SIZE >= pde * PT_SIZE + PT_SIZE {
    }
  }

  lemma OrderOfOne()
    ensures BuddyOrder(1) == 0
  {
    assert Pow2(0) == 1;
  }

  /** One page, at `a`, has been taken from the allocator since it was in state `y`. */
  ghost predicate Borrowed(buddy: Buddy, a: nat, y: Sys)
    reads buddy
  {
    true == (
    && Valid(y.s, y.live) && buddy.Ok() && a == Base(0, Blk(0, a)) && Block(0, Blk(0, a)) !in y.live
    && buddy.live == y.live + {Block(0, Blk(0, a))}
    && FreeFrames(AsWritten, buddy.View(), a, 1) == y.s)
  }

  /** A page has been mapped at `a`, in the mapping area. */
  ghost predicate Opened(h0: Heap, d0: Dir, h: Heap, d: Dir, a: nat, lo: nat, hi: nat) {
    true == (
    && Walkable(h0, d0) && Walkable(h, d) && lo <= Pde(a) < hi <= PT_SIZE
    && OnlyTable(h0, d0, h, d, Pde(a)) && UserPresent(d.tables[Pde(a)]) == UserPresent(d0.tables[Pde(a)]))
  }

  /** Maps frame `dest` at one fresh virtual page; the page at `src` still walks to its frame. */
  method MapTemporarily(k: Kernel, buddy: Buddy, pd: PageDir, dest: nat, ghost src: nat, ghost y: Sys, ghost can: bool)
    returns (v: Option<nat>)
    requires At(buddy, y) && Ready(k, buddy, pd) && dest != 0 && dest in k.bitmap.Used()
    requires Mapped(pd.Val(), src) && !(buddy.first <= Pde(src) < buddy.first + buddy.tops)
    requires CanMap(y, can)
    modifies k`heap, pd, buddy, k.bitmap.frames
    ensures v.Some? <==> can
    ensures v.Some? ==>
              var a := v.value;
              && k.bitmap.Ok() && DirOk(k.heap, pd.Val()) && Linked(k.layout.phys, pd.Val())
              && k.bitmap.Used() == old(k.bitmap.Used())
              && Opened(old(k.heap), old(pd.Val()), k.heap, pd.Val(), a, buddy.first, buddy.first + buddy.tops)
              && !UserPresent(pd.tables[Pde(a)])
              && ToPhys(k.heap, pd.Val(), src) / PAGE_SIZE == FrameNo(old(EntryOf(k.heap, pd.Val(), src)))
              && ToPhys(k.heap, pd.Val(), a) / PAGE_SIZE == dest
              && Borrowed(buddy, a, y)
  {
    var phys, flags := dest * PAGE_SIZE, R_W + PRESENT;
    assert !IsUser(flags) && IsPresent(flags);
    FreeUndoesAlloc(AsWritten, y.s, y.live, 1);
    OneMark(k.bitmap.Used(), dest, phys);
    OrderOfOne();
    ghost var h0, d0 := k.heap, pd.Val();
    v := k.Knmmap(buddy, pd, phys, 1, flags);
    assert v.Some? <==> MapsOne(y);
    if v.Some? {
      CopyWalks(h0, d0, k.heap, pd.Val(), v.value, src, dest);
      NotLive(y.live, v.value);
    }
  }

  lemma NotLive(live: set<Block>, a: nat)
    requires !LiveAt(live, a)
    ensures Block(0, Blk(0, a)) !in live
  {
  }

  /** Takes the temporary mapping back. */
  method UnmapTemporarily(k: Kernel, buddy: Buddy, pd: PageDir, a: nat,
                          ghost y: Sys, ghost h0: Heap, ghost d0: Dir)
    requires Borrowed(buddy, a, y)
    requires Opened(h0, d0, k.heap, pd.Val(), a, buddy.first, buddy.first + buddy.tops)
    modifies k`heap, buddy
    ensures At(buddy, y) && Passed(h0, d0, k.heap, pd.Val(), buddy.first, buddy.first + buddy.tops)
  {
    OnePage(a);
    ghost var b, h1, d := Block(0, Blk(0, a)), k.heap, pd.Val();
    KnmunmapContiguous(k, buddy, pd, a, 1, b);
    AddRemove(y.live, b);
    Closed(h0, d0, h1, k.heap, d, a, Pde(a) * PT_SIZE + Pte(a), buddy.first, buddy.first + buddy.tops);
  }

  lemma Closed(h0: Heap, d0: Dir, h1: Heap, h2: Heap, d: Dir, a: nat, e: nat, lo: nat, hi: nat)
    requires Opened(h0, d0, h1, d, a, lo, hi) && Walkable(h2, d)
    requires e == Pde(a) * PT_SIZE + Pte(a) && Unmapped(h1, h2, d, e, e + 1)
    ensures Passed(h0, d0, h2, d, lo, hi)
  {
    OnePage(a);
    MapUnmapKernelOnly(h0, d0, h1, h2, d, Pde(a), e, 1, lo, hi);
  }

  lemma OnePage(a: nat)
    ensures Pte(a) + 1 <= PT_SIZE && 1 <= Pow2(0)
    ensures Pde(a) * PT_SIZE + Pte(a) + 1 <= Pde(a) * PT_SIZE + PT_SIZE
  {
    SplitAddr(a);
  }

  lemma AddRemove(live: set<Block>, b: Block)
    requires b !in live
    ensures live + {b} - {b} == live
  {
  }

  /** Copies the page at `src` into frame `dest` through a temporary mapping. */
  method CopyPage(k: Kernel, buddy: Buddy, pd: PageDir, dest: nat, src: nat, ghost y: Sys, ghost can: bool) returns (ok: bool)
    requires At(buddy, y) && Ready(k, buddy, pd) && dest != 0 && dest in k.bitmap.Used()
    requires src % PAGE_SIZE == 0 && Mapped(pd.Val(), src)
    requires !(buddy.first <= Pde(src) < buddy.first + buddy.tops)
    requires CanMap(y, can)
    modifies k, pd, buddy, k.bitmap.frames
    ensures ok <==> can
    ensures ok ==>
              && Ready(k, buddy, pd)
              && k.bitmap.Used() == old(k.bitmap.Used())
              && At(buddy, y)
              && Passed(old(k.heap), old(pd.Val()), k.heap, pd.Val(), buddy.first, buddy.first + buddy.tops)
              && k.mem == Store(old(k.mem), dest, old(k.mem)(FrameNo(old(EntryOf(k.heap, pd.Val(), src)))))
  {
    ghost var h0, d0 := k.heap, pd.Val();
    var v := MapTemporarily(k, buddy, pd, dest, src, y, can);
    if v.None? {
      return false;
    }
    var a := v.value;
    var from, to := ToPhys(k.heap, pd.Val(), src) / PAGE_SIZE, ToPhys(k.heap, pd.Val(), a) / PAGE_SIZE;
    k.mem := Store(k.mem, to, k.mem(from));
    UnmapTemporarily(k, buddy, pd, a, y, h0, d0);
    ok := true;
  }

  // ---- one page ----

  lemma FoundOne(used: set<nat>, words: nat, flags: nat, free: nat)
    requires FrameTheorems.Uniform(used) && flags < PAGE_SIZE && Left(words, used, free)
    ensures var r := Frames.FindAllocFrames(used, words, 1);
            && FrameTheorems.Below(r.frames, Frames.WORD * words) && FrameTheorems.Uniform(r.used)
            && (r.ok <==> free > 0)
            && (r.ok ==>
                  && |r.frames| == 1 && r.frames[0] !in used && r.used == used + {r.frames[0]}
                  && Left(words, r.used, free - 1)
                  && var e := Frames.EntriesFor(r.frames, flags)[0];
                     FrameNo(e) == r.frames[0] && Flags(e) == flags)
  {
    FrameTheorems.SearchSound(used, words, 1);
    FrameTheorems.SingleFoundIff(used, words);
    var r := Frames.FindAllocFrames(used, words, 1);
    if r.ok {
      FrameTheorems.SinglesLeft(used, words, {r.frames[0]});
      FrameOfEntry(0, r.frames[0], flags);
    }
  }

  /** An entry for one free frame. */
  method FindAllocFrame(bitmap: Bitmap, flags: nat, ghost free: nat) returns (ok: bool, e': nat)
    requires bitmap.Ok() && FrameTheorems.Uniform(bitmap.Used()) && flags < PAGE_SIZE
    requires Left(bitmap.frames.Length, bitmap.Used(), free)
    modifies bitmap.frames
    ensures bitmap.Ok() && FrameTheorems.Uniform(bitmap.Used())
    ensures ok <==> free > 0
    ensures ok ==>
              && FrameNo(e') !in old(bitmap.Used()) && Flags(e') == flags
              && bitmap.Used() == old(bitmap.Used()) + {FrameNo(e')}
              && Left(bitmap.frames.Length, bitmap.Used(), free - 1)
  {
    FoundOne(bitmap.Used(), bitmap.frames.Length, flags, free);
    var es;
    ok, es := bitmap.FindAllocNframes(1, flags);
    e' := if ok then es[0] else 0;
  }

  lemma PageAt(h: Heap, d: Dir, pde: nat, pte: nat, va: nat)
    requires Walkable(h, d) && pde < PT_SIZE && pte < PT_SIZE && d.virt[pde] != 0 && va == VirtAddr(pde, pte)
    ensures va % PAGE_SIZE == 0 && Pde(va) == pde && Mapped(d, va) && EntryOf(h, d, va) == h[d.virt[pde]][pte]
  {
    JoinAddr(pde, pte, 0);
  }

  /** The page of entry `e` has been copied to the frame of `e'`, which was free, under the same flags. */
  ghost predicate PageCopied(e: nat, e': nat, used: set<nat>, used': set<nat>, mem: nat -> Page, mem': nat -> Page) {
    true == (
    && FrameNo(e') !in used && used' == used + {FrameNo(e')} && Flags(e') == Flags(e)
    && mem' == Store(mem, FrameNo(e'), mem(FrameNo(e))))
  }

  /** Gives the user page at entry `pte` of table `pde` a frame of its own with the same bytes. */
  method ClonePage(k: Kernel, buddy: Buddy, pd: PageDir, pde: nat, pte: nat, ghost y: Sys,
                   ghost can: bool, ghost free: nat) returns (ok: bool, e': nat)
    requires At(buddy, y) && Ready(k, buddy, pd) && pde < PT_SIZE && pte < PT_SIZE && pd.virt[pde] != 0
    requires !(buddy.first <= pde < buddy.first + buddy.tops)
    requires CanMap(y, can) && Left(k.bitmap.frames.Length, k.bitmap.Used(), free)
    modifies k, pd, buddy, k.bitmap.frames
    ensures ok <==> can && free > 0
    ensures ok ==> Left(k.bitmap.frames.Length, k.bitmap.Used(), free - 1)
    ensures ok ==>
              var e := old(k.heap[pd.virt[pde]][pte]);
              && Ready(k, buddy, pd)
              && PageCopied(e, e', old(k.bitmap.Used()), k.bitmap.Used(), old(k.mem), k.mem)
              && At(buddy, y)
              && Passed(old(k.heap), old(pd.Val()), k.heap, pd.Val(), buddy.first, buddy.first + buddy.tops)
  {
    var flags := Flags(k.heap[pd.virt[pde]][pte]);
    ok, e' := FindAllocFrame(k.bitmap, flags, free);
    if !ok {
      return;
    }
    PageAt(k.heap, pd.Val(), pde, pte, VirtAddr(pde, pte));
    ok := CopyPage(k, buddy, pd, FrameNo(e'), VirtAddr(pde, pte), y, can);
  }

  // ---- one table ----

  /** Entry `j` of a cloned table: a user page has a frame that was free and holds the same
      bytes under the same flags; any other entry is the same. */
  ghost predicate ClonedEntry(e: nat, e': nat, used0: set<nat>, mem0: nat -> Page, mem: nat -> Page) {
    if UserPresent(e) then
      && Flags(e') == Flags(e)
      && FrameNo(e') !in used0
      && mem(FrameNo(e')) == mem0(FrameNo(e))
    else e' == e
  }

  /** The first `n` entries are cloned, and `own` says which entry each new frame serves. */
  ghost predicate ClonedTo(pt: Table, pt': Table, n: nat, used0: set<nat>,
                           mem0: nat -> Page, mem: nat -> Page, own: map<nat, nat>)
  {
    && |pt| == PT_SIZE && |pt'| == PT_SIZE && n <= PT_SIZE
    && (forall j :: 0 <= j < n ==> ClonedEntry(pt[j], pt'[j], used0, mem0, mem))
    && (forall j :: 0 <= j < n && UserPresent(pt[j]) ==> FrameNo(pt'[j]) in own && own[FrameNo(pt'[j])] == j)
    && (forall f :: f in own ==> Serves(pt, pt', n, f, own[f]))
  }

  /** The new frame `f` holds the copy of user page `j`. */
  predicate Serves(pt: Table, pt': Table, n: nat, f: nat, j: nat)
    requires |pt| == PT_SIZE && |pt'| == PT_SIZE && n <= PT_SIZE
  {
    j < n && UserPresent(pt[j]) && FrameNo(pt'[j]) == f
  }

  /** The bitmap and the memory have changed by the new frames only. */
  ghost predicate GrownBy(used0: set<nat>, used: set<nat>, mem0: nat -> Page, mem: nat -> Page, added: set<nat>) {
    && used == used0 + added && added !! used0
    && (forall f :: f in used0 ==> mem(f) == mem0(f))
  }

  lemma NextCloned(pt: Table, pt': Table, i: nat, used0: set<nat>, used: set<nat>,
                   mem0: nat -> Page, mem: nat -> Page, own: map<nat, nat>, e': nat)
    requires i < PT_SIZE && ClonedTo(pt, pt', i, used0, mem0, mem, own)
    requires GrownBy(used0, used, mem0, mem, own.Keys)
    requires UserPresent(pt[i]) && FrameNo(pt[i]) in used0
    requires FrameNo(e') !in used && Flags(e') == Flags(pt[i])
    ensures var f := FrameNo(e');
            var mem' := Store(mem, f, mem(FrameNo(pt[i])));
            var own' := own[f := i];
            && ClonedTo(pt, SetEntry(pt', i, e'), i + 1, used0, mem0, mem', own')
            && GrownBy(used0, used + {f}, mem0, mem', own'.Keys)
  {
  }

  lemma NextShared(pt: Table, pt': Table, i: nat, used0: set<nat>,
                   mem0: nat -> Page, mem: nat -> Page, own: map<nat, nat>)
    requires i < PT_SIZE && ClonedTo(pt, pt', i, used0, mem0, mem, own) && !UserPresent(pt[i])
    ensures ClonedTo(pt, SetEntry(pt', i, pt[i]), i + 1, used0, mem0, mem, own)
  {
  }

  /** A table outside the directory is not touched by temporary mappings. */
  lemma OutsideKept(h0: Heap, d0: Dir, h: Heap, d: Dir, lo: nat, hi: nat, t: nat)
    requires Walkable(h0, d0) && Walkable(h, d) && hi <= PT_SIZE && KernelOnly(h0, d0, h, d, lo, hi)
    requires t in h0 && t !in d0.virt
    ensures t in h && h[t] == h0[t] && t !in d.virt
  {
    assert Outside(d, lo, hi, t);
  }

  /** A table in a slot outside the area is not touched either. */
  lemma SlotKept(h0: Heap, d0: Dir, h: Heap, d: Dir, lo: nat, hi: nat, i: nat)
    requires Walkable(h0, d0) && Walkable(h, d) && hi <= PT_SIZE && KernelOnly(h0, d0, h, d, lo, hi)
    requires i < PT_SIZE && !(lo <= i < hi) && d0.virt[i] != 0
    ensures d.virt[i] == d0.virt[i] && h[d.virt[i]] == h0[d0.virt[i]]
  {
    assert Outside(d, lo, hi, d.virt[i]);
  }

  /** Writing a table outside the directory keeps everything about the directory. */
  lemma WriteOutside(h0: Heap, d0: Dir, h: Heap, d: Dir, lo: nat, hi: nat, t: nat, pt: Table)
    requires Walkable(h0, d0) && Walkable(h, d) && hi <= PT_SIZE && KernelOnly(h0, d0, h, d, lo, hi)
    requires t != 0 && t !in h0 && t !in d.virt
    ensures Walkable(h[t := pt], d) && KernelOnly(h0, d0, h[t := pt], d, lo, hi)
  {
  }

  /** The values a table clone keeps between two entries. */
  ghost predicate TableVals(h0: Heap, d0: Dir, h: Heap, d: Dir, lo: nat, hi: nat, pde: nat, nt: nat, n: nat,
                            used0: set<nat>, used: set<nat>, mem0: nat -> Page, mem: nat -> Page, own: map<nat, nat>)
  {
    true == (
    && Walkable(h0, d0) && Walkable(h, d) && hi <= PT_SIZE && pde < PT_SIZE && d0.virt[pde] != 0
    && KernelOnly(h0, d0, h, d, lo, hi) && TablesKept(d0, d, lo, hi)
    && nt != 0 && nt !in h0 && nt in h && nt !in d.virt
    && ClonedTo(h0[d0.virt[pde]], h[nt], n, used0, mem0, mem, own)
    && GrownBy(used0, used, mem0, mem, own.Keys))
  }

  /** `nt` is a table that no directory slot reaches. */
  ghost predicate Spare(h: Heap, d: Dir, nt: nat) {
    true == (nt != 0 && nt in h && |h[nt]| == PT_SIZE && nt !in d.virt)
  }

  /** The table being cloned is still in its slot. */
  lemma TableSlot(h0: Heap, d0: Dir, h: Heap, d: Dir, lo: nat, hi: nat, pde: nat, nt: nat, n: nat,
                  used0: set<nat>, used: set<nat>, mem0: nat -> Page, mem: nat -> Page, own: map<nat, nat>)
    requires TableVals(h0, d0, h, d, lo, hi, pde, nt, n, used0, used, mem0, mem, own) && !(lo <= pde < hi)
    ensures |d.virt| == PT_SIZE && d.virt[pde] == d0.virt[pde] != 0 && h[d.virt[pde]] == h0[d0.virt[pde]]
    ensures Spare(h, d, nt)
  {
    SlotKept(h0, d0, h, d, lo, hi, pde);
  }

  ghost predicate TableState(k: Kernel, buddy: Buddy, pd: PageDir, pde: nat, nt: nat, n: nat,
                             h0: Heap, d0: Dir, used0: set<nat>, mem0: nat -> Page, own: map<nat, nat>)
    reads k, k.bitmap.frames, pd
  {
    && Ready(k, buddy, pd)
    && TableVals(h0, d0, k.heap, pd.Val(), buddy.first, buddy.first + buddy.tops, pde, nt, n,
                 used0, k.bitmap.Used(), mem0, k.mem, own)
  }

  lemma SharedStep(h0: Heap, d0: Dir, h: Heap, d: Dir, lo: nat, hi: nat, pde: nat, nt: nat, i: nat,
                   used0: set<nat>, used: set<nat>, mem0: nat -> Page, mem: nat -> Page, own: map<nat, nat>)
    requires TableVals(h0, d0, h, d, lo, hi, pde, nt, i, used0, used, mem0, mem, own)
    requires i < PT_SIZE && !UserPresent(h0[d0.virt[pde]][i])
    ensures TableVals(h0, d0, h[nt := SetEntry(h[nt], i, h0[d0.virt[pde]][i])], d, lo, hi, pde, nt, i + 1,
                      used0, used, mem0, mem, own)
  {
    NextShared(h0[d0.virt[pde]], h[nt], i, used0, mem0, mem, own);
    WriteOutside(h0, d0, h, d, lo, hi, nt, SetEntry(h[nt], i, h0[d0.virt[pde]][i]));
  }

  lemma UserStep(h0: Heap, d0: Dir, h: Heap, d: Dir, lo: nat, hi: nat, pde: nat, nt: nat, i: nat,
                 used0: set<nat>, used: set<nat>, mem0: nat -> Page, mem: nat -> Page, own: map<nat, nat>,
                 h1: Heap, d1: Dir, e': nat, used1: set<nat>, mem1: nat -> Page)
    requires TableVals(h0, d0, h, d, lo, hi, pde, nt, i, used0, used, mem0, mem, own)
    requires i < PT_SIZE && UserPresent(h0[d0.virt[pde]][i]) && FrameNo(h0[d0.virt[pde]][i]) in used0
    requires Passed(h, d, h1, d1, lo, hi)
    requires PageCopied(h0[d0.virt[pde]][i], e', used, used1, mem, mem1)
    ensures Spare(h1, d1, nt)
    ensures TableVals(h0, d0, h1[nt := SetEntry(h1[nt], i, e')], d1, lo, hi, pde, nt, i + 1,
                      used0, used1, mem0, mem1, own[FrameNo(e') := i])
  {
    OutsideKept(h, d, h1, d1, lo, hi, nt);
    NextCloned(h0[d0.virt[pde]], h[nt], i, used0, used, mem0, mem, own, e');
    KernelOnlyTrans(h0, d0, h, d, h1, d1, lo, hi);
    WriteOutside(h0, d0, h1, d1, lo, hi, nt, SetEntry(h1[nt], i, e'));
  }

  /** Writing the new table leaves the rest of the kernel ready. */
  lemma ReadyAfterWrite(h: Heap, d: Dir, nt: nat, pt: Table)
    requires DirOk(h, d) && nt != 0 && nt !in d.virt
    ensures DirOk(h[nt := pt], d)
  {
  }

  /** Writes an entry of the new table; the rest of the kernel stays ready. */
  method StoreEntry(k: Kernel, buddy: Buddy, pd: PageDir, nt: nat, i: nat, e: nat)
    requires Ready(k, buddy, pd) && i < PT_SIZE && Spare(k.heap, pd.Val(), nt)
    modifies k`heap
    ensures Ready(k, buddy, pd) && k.heap == old(k.heap)[nt := SetEntry(old(k.heap)[nt], i, e)]
  {
    ReadyAfterWrite(k.heap, pd.Val(), nt, SetEntry(k.heap[nt], i, e));
    k.heap := k.heap[nt := SetEntry(k.heap[nt], i, e)];
  }

  function Pages(e: nat): nat {
    if UserPresent(e) then 1 else 0
  }

  /** The entries of a table that are user pages, one by one and together. */
  function Marks(pt: Table): (r: seq<nat>)
    ensures |r| == |pt|
  {
    seq<nat>(|pt|, i requires 0 <= i < |pt| => Pages(pt[i]))
  }

  function UserCount(pt: Table): nat {
    SumTo(Marks(pt), |pt|)
  }

  function SumTo(ns: seq<nat>, n: nat): nat
    requires n <= |ns|
  {
    if n == 0 then 0 else SumTo(ns, n - 1) + ns[n - 1]
  }

  lemma {:induction false} SumGrows(ns: seq<nat>, i: nat, n: nat)
    requires i < n <= |ns|
    ensures SumTo(ns, i) + ns[i] <= SumTo(ns, n)
  {
    if i < n - 1 {
      SumGrows(ns, i, n - 1);
    }
  }

  /** After `n` steps `left` of the `free` frames are left. */
  ghost predicate PagesLeft(plan: seq<nat>, n: nat, can: bool, free: nat, left: nat) {
    true == (n <= |plan| && left + SumTo(plan, n) == free && CanClone(can, free, SumTo(plan, n)))
  }

  lemma PagesTaken(plan: seq<nat>, i: nat, can: bool, free: nat, left: nat)
    requires i < |plan| && PagesLeft(plan, i, can, free, left)
    ensures CanClone(can, left, plan[i]) ==> plan[i] <= left && PagesLeft(plan, i + 1, can, free, left - plan[i])
    ensures !CanClone(can, left, plan[i]) ==> !CanClone(can, free, SumTo(plan, |plan|))
  {
    SumGrows(plan, i, |plan|);
  }

  /** A user entry: its page is copied to a new frame. */
  method CloneUserEntry(k: Kernel, buddy: Buddy, pd: PageDir, pde: nat, nt: nat, i: nat,
                        ghost h0: Heap, ghost d0: Dir, ghost used0: set<nat>, ghost mem0: nat -> Page,
                        ghost own: map<nat, nat>, ghost y: Sys, ghost can: bool, ghost free: nat)
    returns (ok: bool, ghost own': map<nat, nat>)
    requires At(buddy, y) && i < PT_SIZE
    requires Ready(k, buddy, pd)
    requires TableVals(h0, d0, k.heap, pd.Val(), buddy.first, buddy.first + buddy.tops, pde, nt, i,
                       used0, k.bitmap.Used(), mem0, k.mem, own)
    requires !(buddy.first <= pde < buddy.first + buddy.tops)
    requires UserPresent(h0[d0.virt[pde]][i]) && FrameNo(h0[d0.virt[pde]][i]) in used0
    requires CanMap(y, can) && Left(k.bitmap.frames.Length, k.bitmap.Used(), free)
    modifies k, pd, buddy, k.bitmap.frames
    ensures ok <==> can && free > 0
    ensures ok ==> Left(k.bitmap.frames.Length, k.bitmap.Used(), free - 1)
    ensures ok ==> At(buddy, y) && Ready(k, buddy, pd)
    ensures ok ==> TableVals(h0, d0, k.heap, pd.Val(), buddy.first, buddy.first + buddy.tops, pde, nt, i + 1,
                             used0, k.bitmap.Used(), mem0, k.mem, own')
  {
    ghost var lo, hi := buddy.first, buddy.first + buddy.tops;
    own' := own;
    ghost var h, d, used, mem := k.heap, pd.Val(), k.bitmap.Used(), k.mem;
    TableSlot(h0, d0, h, d, lo, hi, pde, nt, i, used0, used, mem0, mem, own);
    var e';
    ok, e' := ClonePage(k, buddy, pd, pde, i, y, can, free);
    if ok {
      UserStep(h0, d0, h, d, lo, hi, pde, nt, i, used0, used, mem0, mem, own,
               k.heap, pd.Val(), e', k.bitmap.Used(), k.mem);
      StoreEntry(k, buddy, pd, nt, i, e');
      own' := own[FrameNo(e') := i];
    }
  }

  /** One entry of a table clone: anything but a present user page is shared. */
  method CloneNext(k: Kernel, buddy: Buddy, pd: PageDir, pde: nat, nt: nat, i: nat,
                   ghost h0: Heap, ghost d0: Dir, ghost used0: set<nat>, ghost mem0: nat -> Page,
                   ghost own: map<nat, nat>, ghost y: Sys, ghost can: bool, ghost free: nat)
    returns (ok: bool, ghost own': map<nat, nat>)
    requires At(buddy, y) && i < PT_SIZE
    requires Ready(k, buddy, pd)
    requires TableVals(h0, d0, k.heap, pd.Val(), buddy.first, buddy.first + buddy.tops, pde, nt, i,
                       used0, k.bitmap.Used(), mem0, k.mem, own)
    requires !(buddy.first <= pde < buddy.first + buddy.tops)
    requires UserPresent(h0[d0.virt[pde]][i]) ==> FrameNo(h0[d0.virt[pde]][i]) in used0
    requires CanMap(y, can) && Left(k.bitmap.frames.Length, k.bitmap.Used(), free)
    modifies k, pd, buddy, k.bitmap.frames
    ensures ok <==> CanClone(can, free, Pages(h0[d0.virt[pde]][i]))
    ensures ok ==> Left(k.bitmap.frames.Length, k.bitmap.Used(), free - Pages(h0[d0.virt[pde]][i]))
    ensures ok ==> At(buddy, y) && Ready(k, buddy, pd)
    ensures ok ==> TableVals(h0, d0, k.heap, pd.Val(), buddy.first, buddy.first + buddy.tops, pde, nt, i + 1,
                             used0, k.bitmap.Used(), mem0, k.mem, own')
  {
    ghost var lo, hi := buddy.first, buddy.first + buddy.tops;
    TableSlot(h0, d0, k.heap, pd.Val(), lo, hi, pde, nt, i, used0, k.bitmap.Used(), mem0, k.mem, own);
    var e := k.heap[pd.virt[pde]][i];
    if UserPresent(e) {
      ok, own' := CloneUserEntry(k, buddy, pd, pde, nt, i, h0, d0, used0, mem0, own, y, can, free);
    } else {
      SharedStep(h0, d0, k.heap, pd.Val(), lo, hi, pde, nt, i, used0, k.bitmap.Used(), mem0, k.mem, own);
      StoreEntry(k, buddy, pd, nt, i, e);
      ok, own' := true, own;
    }
  }

  /** A fresh table to clone the table at `pde` into. */
  method NewTable(k: Kernel, buddy: Buddy, pd: PageDir, pde: nat) returns (nt: nat, phys: nat)
    requires Ready(k, buddy, pd) && pde < PT_SIZE && pd.virt[pde] != 0
    modifies k`heap
    ensures phys == k.layout.phys(nt) && phys % PAGE_SIZE == 0
    ensures TableState(k, buddy, pd, pde, nt, 0, old(k.heap), pd.Val(), k.bitmap.Used(), k.mem, map[])
  {
    ghost var h0, d0, lo, hi := k.heap, pd.Val(), buddy.first, buddy.first + buddy.tops;
    nt, phys := k.AllocPt();
    KernelOnlyRefl(h0, d0, lo, hi);
    WriteOutside(h0, d0, h0, d0, lo, hi, nt, Zeros());
    ReadyAfterWrite(h0, d0, nt, Zeros());
  }

  /** Clones the table at `pde`: user pages are copied, other entries shared. */
  method ClonePageTable(k: Kernel, buddy: Buddy, pd: PageDir, pde: nat, ghost y: Sys, ghost can: bool, ghost free: nat)
    returns (ok: bool, nt: nat, phys: nat, ghost own: map<nat, nat>)
    requires At(buddy, y) && Ready(k, buddy, pd) && pde < PT_SIZE && pd.virt[pde] != 0
    requires !(buddy.first <= pde < buddy.first + buddy.tops)
    requires forall j :: 0 <= j < PT_SIZE && UserPresent(k.heap[pd.virt[pde]][j]) ==>
               FrameNo(k.heap[pd.virt[pde]][j]) in k.bitmap.Used()
    requires CanMap(y, can) && Left(k.bitmap.frames.Length, k.bitmap.Used(), free)
    modifies k, pd, buddy, k.bitmap.frames
    ensures ok <==> CanClone(can, free, UserCount(old(k.heap[pd.virt[pde]])))
    ensures ok ==> Left(k.bitmap.frames.Length, k.bitmap.Used(), free - UserCount(old(k.heap[pd.virt[pde]])))
    ensures phys == k.layout.phys(nt) && phys % PAGE_SIZE == 0
    ensures ok ==>
              && TableState(k, buddy, pd, pde, nt, PT_SIZE,
                            old(k.heap), old(pd.Val()), old(k.bitmap.Used()), old(k.mem), own)
              && At(buddy, y)
  {
    ghost var h0, d0, used0, mem0 := k.heap, pd.Val(), k.bitmap.Used(), k.mem;
    own := map[];
    nt, phys := NewTable(k, buddy, pd, pde);
    ghost var marks := Marks(h0[d0.virt[pde]]);
    ghost var left: nat := free;
    for i := 0 to PT_SIZE
      invariant At(buddy, y) && TableState(k, buddy, pd, pde, nt, i, h0, d0, used0, mem0, own)
      invariant PagesLeft(marks, i, can, free, left) && Left(k.bitmap.frames.Length, k.bitmap.Used(), left)
    {
      PagesTaken(marks, i, can, free, left);
      ok, own := CloneNext(k, buddy, pd, pde, nt, i, h0, d0, used0, mem0, own, y, can, left);
      if !ok {
        return;
      }
      left := left - marks[i];
    }
    ok := true;
  }

  lemma KernelOnlyRefl(h: Heap, d: Dir, lo: nat, hi: nat)
    requires Walkable(h, d) && hi <= PT_SIZE
    ensures KernelOnly(h, d, h, d, lo, hi)
  {
  }

  // ---- the whole directory ----

  /** A page's place: directory slot and table entry. */
  datatype Place = Place(pde: nat, pte: nat)

  /** Slot `i` is a user table and entry `j` of it a user page. */
  predicate UserPage(h: Heap, d: Dir, i: nat, j: nat)
    requires Walkable(h, d)
  {
    i < PT_SIZE && j < PT_SIZE && d.virt[i] != 0 && UserPresent(d.tables[i]) && UserPresent(h[d.virt[i]][j])
  }

  /** Slot `i` of the new directory: a user table has been cloned, and `own` names the page each
      new frame serves; any other slot points to the same table. */
  ghost predicate SlotCloned(h0: Heap, d0: Dir, h: Heap, d: Dir, nv: seq<nat>, i: nat, used0: set<nat>,
                             mem0: nat -> Page, mem: nat -> Page, own: map<nat, Place>)
    requires Walkable(h0, d0) && |d.virt| == PT_SIZE && |nv| == PT_SIZE && i < PT_SIZE
  {
    if d0.virt[i] != 0 && UserPresent(d0.tables[i]) then
      && nv[i] != 0 && nv[i] !in h0 && nv[i] in h && |h[nv[i]]| == PT_SIZE
      && (forall j :: 0 <= j < PT_SIZE ==>
            ClonedEntry(h0[d0.virt[i]][j], h[nv[i]][j], used0, mem0, mem))
      && (forall j :: 0 <= j < PT_SIZE && UserPresent(h0[d0.virt[i]][j]) ==>
            FrameNo(h[nv[i]][j]) in own && own[FrameNo(h[nv[i]][j])] == Place(i, j))
    else nv[i] == d.virt[i]
  }

  /** The values a directory clone keeps between two slots. */
  ghost predicate DirVals(h0: Heap, d0: Dir, h: Heap, d: Dir, lo: nat, hi: nat, n: nat, nv: seq<nat>,
                          used0: set<nat>, used: set<nat>, mem0: nat -> Page, mem: nat -> Page, own: map<nat, Place>)
  {
    true == (
    && Walkable(h0, d0) && Walkable(h, d) && hi <= PT_SIZE && |nv| == PT_SIZE && n <= PT_SIZE
    && KernelOnly(h0, d0, h, d, lo, hi)
    && (forall i :: 0 <= i < n ==> SlotCloned(h0, d0, h, d, nv, i, used0, mem0, mem, own))
    && (forall i :: 0 <= i < n && d0.virt[i] != 0 && UserPresent(d0.tables[i]) ==> nv[i] !in d.virt)
    && (forall i, j :: 0 <= i < j < n && d0.virt[j] != 0 && UserPresent(d0.tables[j]) ==> nv[i] != nv[j])
    && (forall f :: f in own ==> own[f].pde < n && HoldsCopy(h0, d0, h, nv, f, own[f]))
    && GrownBy(used0, used, mem0, mem, own.Keys))
  }

  /** Frame `f` holds the copy of the user page at `p`. */
  predicate HoldsCopy(h0: Heap, d0: Dir, h: Heap, nv: seq<nat>, f: nat, p: Place)
    requires Walkable(h0, d0) && |nv| == PT_SIZE
  {
    && UserPage(h0, d0, p.pde, p.pte) && nv[p.pde] in h && |h[nv[p.pde]]| == PT_SIZE
    && FrameNo(h[nv[p.pde]][p.pte]) == f
  }

  /** The directory is sound, all its user slots lie below the mapping area, and every user page's
      frame is marked. */
  ghost predicate UserBelow(h: Heap, d: Dir, lo: nat, used: set<nat>) {
    true == (
    && DirOk(h, d)
    && (forall i :: 0 <= i < PT_SIZE && UserPresent(d.tables[i]) ==> i < lo)
    && (forall i, j :: 0 <= i < PT_SIZE && 0 <= j < PT_SIZE && UserPage(h, d, i, j) ==>
          FrameNo(h[d.virt[i]][j]) in used))
  }

  /** The user pages behind slot `i`, and behind the first `n` slots. */
  function SlotPages(h: Heap, d: Dir, i: nat): nat {
    if i < |d.virt| && i < |d.tables| && d.virt[i] in h && UserPresent(d.tables[i])
    then UserCount(h[d.virt[i]]) else 0
  }

  /** The user pages of a whole directory. */
  function PageCount(h: Heap, d: Dir): nat {
    SumTo(seq<nat>(PT_SIZE, i requires 0 <= i < PT_SIZE => SlotPages(h, d, i)), PT_SIZE)
  }

  /** The places of the user pages behind the first `n` slots. */
  function Places(h: Heap, d: Dir, n: nat): set<Place>
    requires Walkable(h, d)
  {
    set i: nat, j: nat | 0 <= i < n && 0 <= j < PT_SIZE && UserPage(h, d, i, j) :: Place(i, j)
  }

  /** Those of the first `n` entries behind slot `i`. */
  function PlacesIn(pt: Table, i: nat, n: nat): set<Place>
    requires n <= |pt|
  {
    set j: nat | 0 <= j < n && UserPresent(pt[j]) :: Place(i, j)
  }

  lemma {:induction false} CountIn(pt: Table, i: nat, n: nat)
    requires n <= |pt|
    ensures |PlacesIn(pt, i, n)| == SumTo(Marks(pt), n)
  {
    if n > 0 {
      CountIn(pt, i, n - 1);
      var one := if UserPresent(pt[n - 1]) then {Place(i, n - 1)} else {};
      assert PlacesIn(pt, i, n) == PlacesIn(pt, i, n - 1) + one;
    }
  }

  lemma SlotPlaces(h: Heap, d: Dir, n: nat)
    requires Walkable(h, d) && n < PT_SIZE
    ensures |Places(h, d, n + 1)| == |Places(h, d, n)| + SlotPages(h, d, n)
  {
    if d.virt[n] != 0 && UserPresent(d.tables[n]) {
      var pt := h[d.virt[n]];
      CountIn(pt, n, PT_SIZE);
      assert Places(h, d, n + 1) == Places(h, d, n) + PlacesIn(pt, n, PT_SIZE);
    } else {
      assert Places(h, d, n + 1) == Places(h, d, n);
    }
  }

  lemma {:induction false} PlacesCounted(h: Heap, d: Dir, plan: seq<nat>, n: nat)
    requires Walkable(h, d) && n <= PT_SIZE == |plan|
    requires forall i :: 0 <= i < PT_SIZE ==> plan[i] == SlotPages(h, d, i)
    ensures |Places(h, d, n)| == SumTo(plan, n)
  {
    if n > 0 {
      PlacesCounted(h, d, plan, n - 1);
      SlotPlaces(h, d, n - 1);
    }
  }

  /** The count is that of the places of user pages. */
  lemma PageCountIs(h: Heap, d: Dir)
    requires Walkable(h, d)
    ensures PageCount(h, d) == |Places(h, d, PT_SIZE)|
  {
    PlacesCounted(h, d, seq<nat>(PT_SIZE, i requires 0 <= i < PT_SIZE => SlotPages(h, d, i)), PT_SIZE);
  }

  /** `plan[i]` pages are to be copied for slot `i`. */
  ghost predicate Plan(h: Heap, d: Dir, plan: seq<nat>) {
    true == (|plan| == PT_SIZE && forall i: nat {:trigger SlotPages(h, d, i)} :: i < PT_SIZE ==> plan[i] == SlotPages(h, d, i))
  }

  lemma PlanAt(h: Heap, d: Dir, plan: seq<nat>, i: nat)
    requires Walkable(h, d) && Plan(h, d, plan) && i < PT_SIZE
    ensures |plan| == PT_SIZE
    ensures plan[i] == if d.virt[i] != 0 && UserPresent(d.tables[i]) then UserCount(h[d.virt[i]]) else 0
  {
    assert plan[i] == SlotPages(h, d, i);
  }

  /** The new frames of table `i`, placed in the directory. */
  function Placed(own: map<nat, Place>, i: nat, ownT: map<nat, nat>): map<nat, Place> {
    own + map f | f in ownT :: Place(i, ownT[f])
  }

  /** A slot cloned earlier stays cloned while another table is being cloned. */
  lemma OldSlotKept(h0: Heap, d0: Dir, h: Heap, d: Dir, lo: nat, hi: nat, nv: seq<nat>, i: nat,
                    used0: set<nat>, used: set<nat>, mem0: nat -> Page, mem: nat -> Page, own: map<nat, Place>,
                    h1: Heap, d1: Dir, mem1: nat -> Page, ownT: map<nat, nat>, n: nat, nt: nat)
    requires Walkable(h0, d0) && Walkable(h, d) && Walkable(h1, d1) && hi <= PT_SIZE && |nv| == PT_SIZE
    requires i < n < PT_SIZE && n < lo && KernelOnly(h, d, h1, d1, lo, hi)
    requires SlotCloned(h0, d0, h, d, nv, i, used0, mem0, mem, own)
    requires d0.virt[i] != 0 && UserPresent(d0.tables[i]) ==> nv[i] !in d.virt
    requires GrownBy(used0, used, mem0, mem, own.Keys) && ownT.Keys !! used
    requires forall f :: f in used ==> mem1(f) == mem(f)
    ensures SlotCloned(h0, d0, h1, d1, nv[n := nt], i, used0, mem0, mem1, Placed(own, n, ownT))
    ensures d0.virt[i] != 0 && UserPresent(d0.tables[i]) ==> nv[i] !in d1.virt
  {
    if d0.virt[i] != 0 && UserPresent(d0.tables[i]) {
      OutsideKept(h, d, h1, d1, lo, hi, nv[i]);
    }
  }

  /** The slot just cloned. */
  lemma GrownPlaced(used0: set<nat>, used: set<nat>, used1: set<nat>, mem0: nat -> Page, mem: nat -> Page,
                    mem1: nat -> Page, own: map<nat, Place>, ownT: map<nat, nat>, n: nat)
    requires GrownBy(used0, used, mem0, mem, own.Keys) && GrownBy(used, used1, mem, mem1, ownT.Keys)
    ensures GrownBy(used0, used1, mem0, mem1, Placed(own, n, ownT).Keys)
  {
    assert Placed(own, n, ownT).Keys == own.Keys + ownT.Keys;
  }

  lemma NewSlotCloned(h0: Heap, d0: Dir, h: Heap, d: Dir, lo: nat, hi: nat, nv: seq<nat>, n: nat,
                      used0: set<nat>, used: set<nat>, mem0: nat -> Page, mem: nat -> Page, own: map<nat, Place>,
                      h1: Heap, d1: Dir, used1: set<nat>, mem1: nat -> Page, ownT: map<nat, nat>, nt: nat)
    requires DirVals(h0, d0, h, d, lo, hi, n, nv, used0, used, mem0, mem, own)
    requires n < PT_SIZE && n < lo && d0.virt[n] != 0 && UserPresent(d0.tables[n])
    requires UserBelow(h0, d0, lo, used0)
    requires TableVals(h, d, h1, d1, lo, hi, n, nt, PT_SIZE, used, used1, mem, mem1, ownT)
    ensures SlotCloned(h0, d0, h1, d1, nv[n := nt], n, used0, mem0, mem1, Placed(own, n, ownT))
  {
    SlotKept(h0, d0, h, d, lo, hi, n);
    var pt := h0[d0.virt[n]];
    forall j | 0 <= j < PT_SIZE ensures ClonedEntry(pt[j], h1[nt][j], used0, mem0, mem1) {
      assert ClonedEntry(pt[j], h1[nt][j], used, mem, mem1);
      if UserPresent(pt[j]) {
        assert UserPage(h0, d0, n, j);
      }
    }
  }

  /** Every new frame, of this slot or an earlier one, holds a copy. */
  lemma CopiesHeld(h0: Heap, d0: Dir, h: Heap, d: Dir, lo: nat, hi: nat, nv: seq<nat>, n: nat,
                   used0: set<nat>, used: set<nat>, mem0: nat -> Page, mem: nat -> Page, own: map<nat, Place>,
                   h1: Heap, d1: Dir, used1: set<nat>, mem1: nat -> Page, ownT: map<nat, nat>, nt: nat, f: nat)
    requires DirVals(h0, d0, h, d, lo, hi, n, nv, used0, used, mem0, mem, own)
    requires n < PT_SIZE && n < lo && d0.virt[n] != 0 && UserPresent(d0.tables[n])
    requires TableVals(h, d, h1, d1, lo, hi, n, nt, PT_SIZE, used, used1, mem, mem1, ownT)
    requires f in Placed(own, n, ownT)
    ensures var p := Placed(own, n, ownT)[f]; p.pde < n + 1 && HoldsCopy(h0, d0, h1, nv[n := nt], f, p)
  {
    if f in ownT {
      SlotKept(h0, d0, h, d, lo, hi, n);
      assert Serves(h[d.virt[n]], h1[nt], PT_SIZE, f, ownT[f]);
    } else {
      var p := own[f];
      assert HoldsCopy(h0, d0, h, nv, f, p);
      assert SlotCloned(h0, d0, h, d, nv, p.pde, used0, mem0, mem, own);
      OutsideKept(h, d, h1, d1, lo, hi, nv[p.pde]);
    }
  }

  lemma OldSlotStep(h0: Heap, d0: Dir, h: Heap, d: Dir, lo: nat, hi: nat, nv: seq<nat>, n: nat,
                    used0: set<nat>, used: set<nat>, mem0: nat -> Page, mem: nat -> Page, own: map<nat, Place>,
                    h1: Heap, d1: Dir, used1: set<nat>, mem1: nat -> Page, ownT: map<nat, nat>, nt: nat, i: nat)
    requires DirVals(h0, d0, h, d, lo, hi, n, nv, used0, used, mem0, mem, own)
    requires i < n < PT_SIZE && n < lo
    requires TableVals(h, d, h1, d1, lo, hi, n, nt, PT_SIZE, used, used1, mem, mem1, ownT)
    ensures SlotCloned(h0, d0, h1, d1, nv[n := nt], i, used0, mem0, mem1, Placed(own, n, ownT))
    ensures d0.virt[i] != 0 && UserPresent(d0.tables[i]) ==> nv[i] !in d1.virt
    ensures nv[i] != nt
  {
    OldSlotKept(h0, d0, h, d, lo, hi, nv, i, used0, used, mem0, mem, own, h1, d1, mem1, ownT, n, nt);
    if d0.virt[i] != 0 && UserPresent(d0.tables[i]) {
      assert nv[i] in h;
    } else {
      assert nv[i] == d.virt[i];
    }
  }

  lemma UserSlotStep(h0: Heap, d0: Dir, h: Heap, d: Dir, lo: nat, hi: nat, nv: seq<nat>, n: nat,
                     used0: set<nat>, used: set<nat>, mem0: nat -> Page, mem: nat -> Page, own: map<nat, Place>,
                     h1: Heap, d1: Dir, used1: set<nat>, mem1: nat -> Page, ownT: map<nat, nat>, nt: nat)
    requires DirVals(h0, d0, h, d, lo, hi, n, nv, used0, used, mem0, mem, own)
    requires n < PT_SIZE && n < lo && d0.virt[n] != 0 && UserPresent(d0.tables[n])
    requires UserBelow(h0, d0, lo, used0)
    requires TableVals(h, d, h1, d1, lo, hi, n, nt, PT_SIZE, used, used1, mem, mem1, ownT)
    ensures DirVals(h0, d0, h1, d1, lo, hi, n + 1, nv[n := nt], used0, used1, mem0, mem1, Placed(own, n, ownT))
  {
    KernelOnlyTrans(h0, d0, h, d, h1, d1, lo, hi);
    NewSlotCloned(h0, d0, h, d, lo, hi, nv, n, used0, used, mem0, mem, own, h1, d1, used1, mem1, ownT, nt);
    GrownPlaced(used0, used, used1, mem0, mem, mem1, own, ownT, n);
    forall f | f in Placed(own, n, ownT)
      ensures var p := Placed(own, n, ownT)[f]; p.pde < n + 1 && HoldsCopy(h0, d0, h1, nv[n := nt], f, p)
    {
      CopiesHeld(h0, d0, h, d, lo, hi, nv, n, used0, used, mem0, mem, own, h1, d1, used1, mem1, ownT, nt, f);
    }
    forall i | 0 <= i < n
      ensures SlotCloned(h0, d0, h1, d1, nv[n := nt], i, used0, mem0, mem1, Placed(own, n, ownT))
      ensures d0.virt[i] != 0 && UserPresent(d0.tables[i]) ==> nv[i] !in d1.virt
      ensures nv[i] != nt
    {
      OldSlotStep(h0, d0, h, d, lo, hi, nv, n, used0, used, mem0, mem, own, h1, d1, used1, mem1, ownT, nt, i);
    }
  }

  lemma SharedSlotStep(h0: Heap, d0: Dir, h: Heap, d: Dir, lo: nat, hi: nat, nv: seq<nat>, n: nat,
                       used0: set<nat>, used: set<nat>, mem0: nat -> Page, mem: nat -> Page, own: map<nat, Place>)
    requires DirVals(h0, d0, h, d, lo, hi, n, nv, used0, used, mem0, mem, own)
    requires n < PT_SIZE && !(d0.virt[n] != 0 && UserPresent(d0.tables[n]))
    ensures DirVals(h0, d0, h, d, lo, hi, n + 1, nv[n := d.virt[n]], used0, used, mem0, mem, own)
  {
    var nv' := nv[n := d.virt[n]];
    forall i | 0 <= i < n ensures SlotCloned(h0, d0, h, d, nv', i, used0, mem0, mem, own) {
      assert SlotCloned(h0, d0, h, d, nv, i, used0, mem0, mem, own);
    }
  }

  /** Clearing the accessed flag of a directory entry is no change that matters. */
  lemma AccessedStep(h0: Heap, d0: Dir, h: Heap, d: Dir, lo: nat, hi: nat, nv: seq<nat>, n: nat,
                     used0: set<nat>, used: set<nat>, mem0: nat -> Page, mem: nat -> Page, own: map<nat, Place>, d1: Dir)
    requires DirVals(h0, d0, h, d, lo, hi, n, nv, used0, used, mem0, mem, own) && DirOk(h, d)
    requires n < PT_SIZE && d1 == d.(tables := d.tables[n := ClearAccessed(d.tables[n])])
    ensures DirVals(h0, d0, h, d1, lo, hi, n, nv, used0, used, mem0, mem, own) && DirOk(h, d1)
    ensures forall i :: 0 <= i < PT_SIZE ==> UserPresent(d1.tables[i]) == UserPresent(d.tables[i])
  {
    AccessedKeepsFlags(d.tables[n]);
    forall t | t in h0 && Outside(d1, lo, hi, t) ensures h[t] == h0[t] {
      assert Outside(d, lo, hi, t);
    }
    forall i | 0 <= i < n ensures SlotCloned(h0, d0, h, d1, nv, i, used0, mem0, mem, own) {
      assert SlotCloned(h0, d0, h, d, nv, i, used0, mem0, mem, own);
    }
  }

  ghost predicate DirState(k: Kernel, buddy: Buddy, pd: PageDir, n: nat, nd: PageDir, h0: Heap, d0: Dir,
                           used0: set<nat>, mem0: nat -> Page, own: map<nat, Place>)
    reads k, k.bitmap.frames, pd, nd
  {
    && Ready(k, buddy, pd)
    && DirVals(h0, d0, k.heap, pd.Val(), buddy.first, buddy.first + buddy.tops, n, nd.virt,
               used0, k.bitmap.Used(), mem0, k.mem, own)
    && Entered(k.layout.phys, d0, pd.Val(), buddy.first, buddy.first + buddy.tops, n, nd.Val())
  }

  /** The physical entries after `n` slots.  In the old directory those outside the mapping area
      have lost their accessed flag and nothing else.  In the new one a user slot has the bare
      address of its table, and any other the old directory's entry. */
  ghost predicate Entered(phys: nat -> nat, d0: Dir, d: Dir, lo: nat, hi: nat, n: nat, nd: Dir) {
    true == (
    && |d0.tables| == |d.tables| == |d.virt| == |nd.tables| == |nd.virt| == PT_SIZE && n <= PT_SIZE
    && (forall i :: 0 <= i < PT_SIZE && !(lo <= i < hi) ==>
          d.tables[i] == if i < n then ClearAccessed(d0.tables[i]) else d0.tables[i])
    && (forall i :: 0 <= i < n ==> NewSlot(phys, d0, d, nd, i)))
  }

  ghost predicate NewSlot(phys: nat -> nat, d0: Dir, d: Dir, nd: Dir, i: nat)
    requires |d0.tables| == |d.tables| == |nd.tables| == |nd.virt| == PT_SIZE && i < PT_SIZE
  {
    if UserPresent(d0.tables[i]) then nd.tables[i] == phys(nd.virt[i]) && nd.tables[i] % PAGE_SIZE == 0
    else nd.tables[i] == d.tables[i]
  }

  /** Slot `n` is swept. */
  lemma EnteredSwept(phys: nat -> nat, d0: Dir, d: Dir, lo: nat, hi: nat, n: nat, nd: Dir, d1: Dir)
    requires Entered(phys, d0, d, lo, hi, n, nd) && n < PT_SIZE
    requires d1 == d.(tables := d.tables[n := ClearAccessed(d.tables[n])])
    ensures Swept(phys, d0, d1, lo, hi, n, nd)
  {
    forall i | 0 <= i < n ensures NewSlot(phys, d0, d1, nd, i) {
      assert NewSlot(phys, d0, d, nd, i);
    }
  }

  /** As `Entered`, with the accessed flag of slot `n` cleared already. */
  ghost predicate Swept(phys: nat -> nat, d0: Dir, d: Dir, lo: nat, hi: nat, n: nat, nd: Dir) {
    true == (
    && |d0.tables| == |d.tables| == |d.virt| == |nd.tables| == |nd.virt| == PT_SIZE && n < PT_SIZE
    && (forall i :: 0 <= i < PT_SIZE && !(lo <= i < hi) ==>
          d.tables[i] == if i <= n then ClearAccessed(d0.tables[i]) else d0.tables[i])
    && (forall i :: 0 <= i < n ==> NewSlot(phys, d0, d, nd, i)))
  }

  lemma EnteredShared(phys: nat -> nat, d0: Dir, d: Dir, lo: nat, hi: nat, n: nat, nd: Dir, nd1: Dir)
    requires Swept(phys, d0, d, lo, hi, n, nd) && !UserPresent(d0.tables[n])
    requires nd1 == Dir(nd.tables[n := d.tables[n]], nd.virt[n := d.virt[n]])
    ensures Entered(phys, d0, d, lo, hi, n + 1, nd1)
  {
    forall i | 0 <= i < n + 1 ensures NewSlot(phys, d0, d, nd1, i) {
      if i < n {
        assert NewSlot(phys, d0, d, nd, i);
      }
    }
  }

  lemma EnteredUser(phys: nat -> nat, d0: Dir, d: Dir, d1: Dir, lo: nat, hi: nat, n: nat, nd: Dir, nd1: Dir, nt: nat)
    requires Swept(phys, d0, d, lo, hi, n, nd) && UserPresent(d0.tables[n]) && n < lo
    requires TablesKept(d, d1, lo, hi) && |d1.virt| == PT_SIZE && phys(nt) % PAGE_SIZE == 0
    requires nd1 == Dir(nd.tables[n := phys(nt)], nd.virt[n := nt])
    ensures Entered(phys, d0, d1, lo, hi, n + 1, nd1)
  {
    forall i | 0 <= i < n + 1 ensures NewSlot(phys, d0, d1, nd1, i) {
      if i < n {
        assert NewSlot(phys, d0, d, nd, i);
      }
    }
  }

  /** The state of a directory clone while slot `n` is at hand. */
  ghost predicate SlotState(k: Kernel, buddy: Buddy, pd: PageDir, n: nat, nd: PageDir, h0: Heap, d0: Dir,
                            used0: set<nat>, mem0: nat -> Page, own: map<nat, Place>)
    reads k, k.bitmap.frames, pd, nd
  {
    && Ready(k, buddy, pd)
    && DirVals(h0, d0, k.heap, pd.Val(), buddy.first, buddy.first + buddy.tops, n, nd.virt,
               used0, k.bitmap.Used(), mem0, k.mem, own)
    && Swept(k.layout.phys, d0, pd.Val(), buddy.first, buddy.first + buddy.tops, n, nd.Val())
  }

  /** Stores a cloned table in slot `i`. */
  method StoreSlot(k: Kernel, buddy: Buddy, pd: PageDir, nd: PageDir, i: nat, nt: nat, phys: nat,
                   ghost h0: Heap, ghost d0: Dir, ghost used0: set<nat>, ghost mem0: nat -> Page,
                   ghost own: map<nat, Place>, ghost d: Dir)
    requires pd != nd && i < PT_SIZE && i < buddy.first && |nd.virt| == PT_SIZE && Ready(k, buddy, pd)
    requires phys == k.layout.phys(nt) && phys % PAGE_SIZE == 0
    requires Swept(k.layout.phys, d0, d, buddy.first, buddy.first + buddy.tops, i, nd.Val()) && UserPresent(d0.tables[i])
    requires TablesKept(d, pd.Val(), buddy.first, buddy.first + buddy.tops)
    requires DirVals(h0, d0, k.heap, pd.Val(), buddy.first, buddy.first + buddy.tops, i + 1, nd.virt[i := nt],
                     used0, k.bitmap.Used(), mem0, k.mem, own)
    modifies nd
    ensures DirState(k, buddy, pd, i + 1, nd, h0, d0, used0, mem0, own)
  {
    EnteredUser(k.layout.phys, d0, d, pd.Val(), buddy.first, buddy.first + buddy.tops, i, nd.Val(),
                Dir(nd.tables[i := phys], nd.virt[i := nt]), nt);
    nd.tables := nd.tables[i := phys];
    nd.virt := nd.virt[i := nt];
  }

  /** Clears the accessed flag of slot `i`. */
  method ClearSlotAccessed(k: Kernel, buddy: Buddy, pd: PageDir, nd: PageDir, i: nat, ghost h0: Heap, ghost d0: Dir,
                           ghost used0: set<nat>, ghost mem0: nat -> Page, ghost own: map<nat, Place>)
    requires pd != nd && i < PT_SIZE && DirState(k, buddy, pd, i, nd, h0, d0, used0, mem0, own)
    modifies pd
    ensures SlotState(k, buddy, pd, i, nd, h0, d0, used0, mem0, own)
  {
    ghost var d, lo, hi := pd.Val(), buddy.first, buddy.first + buddy.tops;
    ghost var d1 := d.(tables := d.tables[i := ClearAccessed(d.tables[i])]);
    AccessedStep(h0, d0, k.heap, d, lo, hi, nd.virt, i, used0, k.bitmap.Used(), mem0, k.mem, own, d1);
    AccessedLinked(k.layout.phys, d, i, d1);
    EnteredSwept(k.layout.phys, d0, d, lo, hi, i, nd.Val(), d1);
    pd.tables := pd.tables[i := ClearAccessed(pd.tables[i])];
  }

  lemma AccessedLinked(phys: nat -> nat, d: Dir, n: nat, d1: Dir)
    requires |d.tables| == |d.virt| == PT_SIZE && n < PT_SIZE && Linked(phys, d)
    requires d1 == d.(tables := d.tables[n := ClearAccessed(d.tables[n])])
    ensures Linked(phys, d1)
  {
    AccessedKeepsFlags(d.tables[n]);
    FrameUnset(d.tables[n], ACCESSED_BIT, 12);
  }

  method ShareSlot(k: Kernel, buddy: Buddy, pd: PageDir, nd: PageDir, i: nat, ghost h0: Heap, ghost d0: Dir,
                   ghost used0: set<nat>, ghost mem0: nat -> Page, ghost own: map<nat, Place>)
    requires pd != nd && i < PT_SIZE && Ready(k, buddy, pd)
    requires DirVals(h0, d0, k.heap, pd.Val(), buddy.first, buddy.first + buddy.tops, i, nd.virt,
                     used0, k.bitmap.Used(), mem0, k.mem, own)
    requires Swept(k.layout.phys, d0, pd.Val(), buddy.first, buddy.first + buddy.tops, i, nd.Val())
    requires !UserPresent(pd.tables[i])
    modifies nd
    ensures DirState(k, buddy, pd, i + 1, nd, h0, d0, used0, mem0, own)
  {
    ghost var d, lo, hi := pd.Val(), buddy.first, buddy.first + buddy.tops;
    SharedSlotStep(h0, d0, k.heap, d, lo, hi, nd.virt, i, used0, k.bitmap.Used(), mem0, k.mem, own);
    EnteredShared(k.layout.phys, d0, d, lo, hi, i, nd.Val(), Dir(nd.tables[i := d.tables[i]], nd.virt[i := d.virt[i]]));
    nd.virt := nd.virt[i := pd.virt[i]];
    nd.tables := nd.tables[i := pd.tables[i]];
  }

  /** Clones the user table in slot `i`. */
  method CloneUserTable(k: Kernel, buddy: Buddy, pd: PageDir, i: nat, ghost h0: Heap, ghost d0: Dir, ghost nv: seq<nat>,
                        ghost used0: set<nat>, ghost mem0: nat -> Page, ghost own: map<nat, Place>, ghost y: Sys,
                        ghost can: bool, ghost free: nat, ghost plan: seq<nat>, ghost pages: nat)
    returns (ok: bool, nt: nat, phys: nat, ghost ownT: map<nat, nat>)
    requires At(buddy, y) && Ready(k, buddy, pd) && i < PT_SIZE && UserPresent(pd.tables[i])
    requires UserBelow(h0, d0, buddy.first, used0)
    requires DirVals(h0, d0, k.heap, pd.Val(), buddy.first, buddy.first + buddy.tops, i, nv,
                     used0, k.bitmap.Used(), mem0, k.mem, own)
    requires CanMap(y, can) && Left(k.bitmap.frames.Length, k.bitmap.Used(), free)
    requires Plan(h0, d0, plan) && |plan| == PT_SIZE && pages == plan[i]
    modifies k, pd, buddy, k.bitmap.frames
    ensures ok <==> CanClone(can, free, pages)
    ensures ok ==> Left(k.bitmap.frames.Length, k.bitmap.Used(), free - pages)
    ensures phys == k.layout.phys(nt) && phys % PAGE_SIZE == 0
    ensures i < buddy.first && d0.virt[i] != 0 && UserPresent(d0.tables[i])
    ensures ok ==> At(buddy, y) && Ready(k, buddy, pd)
    ensures ok ==> TableVals(old(k.heap), old(pd.Val()), k.heap, pd.Val(), buddy.first, buddy.first + buddy.tops,
                             i, nt, PT_SIZE, old(k.bitmap.Used()), k.bitmap.Used(), old(k.mem), k.mem, ownT)
  {
    UserFramesMarked(h0, d0, k.heap, pd.Val(), buddy.first, buddy.first + buddy.tops, i, nv,
                     used0, k.bitmap.Used(), mem0, k.mem, own);
    PlanAt(h0, d0, plan, i);
    ok, nt, phys, ownT := ClonePageTable(k, buddy, pd, i, y, can, free);
  }

  method CloneUserSlot(k: Kernel, buddy: Buddy, pd: PageDir, nd: PageDir, i: nat, ghost h0: Heap, ghost d0: Dir,
                       ghost used0: set<nat>, ghost mem0: nat -> Page, ghost own: map<nat, Place>, ghost y: Sys,
                       ghost can: bool, ghost free: nat, ghost plan: seq<nat>, ghost pages: nat)
    returns (ok: bool, ghost own': map<nat, Place>)
    requires At(buddy, y) && pd != nd && i < PT_SIZE
    requires UserBelow(h0, d0, buddy.first, used0)
    requires Ready(k, buddy, pd)
    requires DirVals(h0, d0, k.heap, pd.Val(), buddy.first, buddy.first + buddy.tops, i, nd.virt,
                     used0, k.bitmap.Used(), mem0, k.mem, own)
    requires Swept(k.layout.phys, d0, pd.Val(), buddy.first, buddy.first + buddy.tops, i, nd.Val())
    requires UserPresent(pd.tables[i])
    requires CanMap(y, can) && Left(k.bitmap.frames.Length, k.bitmap.Used(), free)
    requires Plan(h0, d0, plan) && |plan| == PT_SIZE && pages == plan[i]
    modifies k, pd, nd, buddy, k.bitmap.frames
    ensures ok <==> CanClone(can, free, pages)
    ensures ok ==> Left(k.bitmap.frames.Length, k.bitmap.Used(), free - pages)
    ensures ok ==> At(buddy, y) && DirState(k, buddy, pd, i + 1, nd, h0, d0, used0, mem0, own')
  {
    ghost var lo, hi, h, d := buddy.first, buddy.first + buddy.tops, k.heap, pd.Val();
    ghost var used, mem, nv := k.bitmap.Used(), k.mem, nd.virt;
    own' := own;
    var nt, phys;
    ghost var ownT;
    ok, nt, phys, ownT := CloneUserTable(k, buddy, pd, i, h0, d0, nd.virt, used0, mem0, own, y, can, free, plan, pages);
    if ok {
      UserSlotStep(h0, d0, h, d, lo, hi, nv, i, used0, used, mem0, mem, own,
                   k.heap, pd.Val(), k.bitmap.Used(), k.mem, ownT, nt);
      own' := Placed(own, i, ownT);
      StoreSlot(k, buddy, pd, nd, i, nt, phys, h0, d0, used0, mem0, own', d);
    }
  }

  /** One slot of a directory clone. */
  method CloneSlot(k: Kernel, buddy: Buddy, pd: PageDir, nd: PageDir, i: nat, ghost h0: Heap, ghost d0: Dir,
                   ghost used0: set<nat>, ghost mem0: nat -> Page, ghost own: map<nat, Place>, ghost y: Sys,
                       ghost can: bool, ghost free: nat, ghost plan: seq<nat>, ghost pages: nat)
    returns (ok: bool, ghost own': map<nat, Place>)
    requires At(buddy, y) && pd != nd && i < PT_SIZE
    requires UserBelow(h0, d0, buddy.first, used0)
    requires DirState(k, buddy, pd, i, nd, h0, d0, used0, mem0, own)
    requires CanMap(y, can) && Left(k.bitmap.frames.Length, k.bitmap.Used(), free)
    requires Plan(h0, d0, plan) && |plan| == PT_SIZE && pages == plan[i]
    modifies k, pd, nd, buddy, k.bitmap.frames
    ensures ok <==> CanClone(can, free, pages)
    ensures ok ==> Left(k.bitmap.frames.Length, k.bitmap.Used(), free - pages)
    ensures ok ==> At(buddy, y) && DirState(k, buddy, pd, i + 1, nd, h0, d0, used0, mem0, own')
  {
    ClearSlotAccessed(k, buddy, pd, nd, i, h0, d0, used0, mem0, own);
    if UserPresent(pd.tables[i]) {
      ok, own' := CloneUserSlot(k, buddy, pd, nd, i, h0, d0, used0, mem0, own, y, can, free, plan, pages);
    } else {
      SlotUser(h0, d0, k.heap, pd.Val(), buddy.first, buddy.first + buddy.tops, i, nd.virt,
               used0, k.bitmap.Used(), mem0, k.mem, own);
      PlanAt(h0, d0, plan, i);
      ShareSlot(k, buddy, pd, nd, i, h0, d0, used0, mem0, own);
      ok, own' := true, own;
    }
  }

  lemma SlotUser(h0: Heap, d0: Dir, h: Heap, d: Dir, lo: nat, hi: nat, i: nat, nv: seq<nat>,
                 used0: set<nat>, used: set<nat>, mem0: nat -> Page, mem: nat -> Page, own: map<nat, Place>)
    requires DirVals(h0, d0, h, d, lo, hi, i, nv, used0, used, mem0, mem, own) && i < PT_SIZE
    ensures Walkable(h0, d0) && UserPresent(d.tables[i]) == UserPresent(d0.tables[i])
  {
  }

  lemma UserFramesMarked(h0: Heap, d0: Dir, h: Heap, d: Dir, lo: nat, hi: nat, i: nat, nv: seq<nat>,
                         used0: set<nat>, used: set<nat>, mem0: nat -> Page, mem: nat -> Page, own: map<nat, Place>)
    requires DirVals(h0, d0, h, d, lo, hi, i, nv, used0, used, mem0, mem, own)
    requires i < PT_SIZE && UserPresent(d.tables[i]) && UserBelow(h0, d0, lo, used0)
    ensures i < lo && d0.virt[i] != 0 && UserPresent(d0.tables[i]) && d.virt[i] == d0.virt[i]
    ensures h[d.virt[i]] == h0[d0.virt[i]]
    ensures forall j :: 0 <= j < PT_SIZE && UserPresent(h[d.virt[i]][j]) ==> FrameNo(h[d.virt[i]][j]) in used
  {
    assert UserPresent(d0.tables[i]);
    SlotKept(h0, d0, h, d, lo, hi, i);
    forall j | 0 <= j < PT_SIZE && UserPresent(h[d.virt[i]][j]) ensures FrameNo(h[d.virt[i]][j]) in used {
      assert UserPage(h0, d0, i, j);
    }
  }

  /** The address spaces are apart: every user page of the new directory has a frame of its own
      that was free, with the same bytes and flags; every other address walks alike in both. */
  ghost predicate Isolated(h0: Heap, d0: Dir, h: Heap, d: Dir, nd: Dir,
                           used0: set<nat>, mem0: nat -> Page, mem: nat -> Page)
    requires Walkable(h0, d0) && Walkable(h, d) && Walkable(h, nd)
  {
    && (forall i: nat, j: nat :: UserPage(h0, d0, i, j) ==>
          nd.virt[i] != 0 && ClonedEntry(h0[d0.virt[i]][j], h[nd.virt[i]][j], used0, mem0, mem))
    && (forall i: nat, j: nat, i': nat, j': nat :: UserPage(h0, d0, i, j) && UserPage(h0, d0, i', j') && (i != i' || j != j') ==>
          nd.virt[i] != 0 && nd.virt[i'] != 0 && FrameNo(h[nd.virt[i]][j]) != FrameNo(h[nd.virt[i']][j']))
    && (forall va: nat :: Pde(va) < PT_SIZE && !UserPage(h0, d0, Pde(va), Pte(va)) ==>
          && ToPhys(h, nd, va) == ToPhys(h, d, va)
          && (Mapped(d, va) <==> Mapped(nd, va))
          && (Mapped(d, va) ==> EntryOf(h, nd, va) == EntryOf(h, d, va)))
  }

  lemma NewWalkable(h0: Heap, d0: Dir, h: Heap, d: Dir, lo: nat, hi: nat, nd: Dir,
                    used0: set<nat>, used: set<nat>, mem0: nat -> Page, mem: nat -> Page, own: map<nat, Place>)
    requires DirVals(h0, d0, h, d, lo, hi, PT_SIZE, nd.virt, used0, used, mem0, mem, own)
    requires |nd.tables| == PT_SIZE
    ensures Walkable(h, nd)
  {
    forall i | 0 <= i < PT_SIZE && nd.virt[i] != 0
      ensures nd.virt[i] in h && |h[nd.virt[i]]| == PT_SIZE
    {
      assert SlotCloned(h0, d0, h, d, nd.virt, i, used0, mem0, mem, own);
    }
    forall i, j | 0 <= i < j < PT_SIZE && nd.virt[i] != 0
      ensures nd.virt[i] != nd.virt[j]
    {
      assert SlotCloned(h0, d0, h, d, nd.virt, i, used0, mem0, mem, own);
      assert SlotCloned(h0, d0, h, d, nd.virt, j, used0, mem0, mem, own);
    }
  }

  lemma OtherWalks(h0: Heap, d0: Dir, h: Heap, d: Dir, lo: nat, hi: nat, nd: Dir,
                   used0: set<nat>, used: set<nat>, mem0: nat -> Page, mem: nat -> Page, own: map<nat, Place>, va: nat)
    requires UserBelow(h0, d0, lo, used0)
    requires DirVals(h0, d0, h, d, lo, hi, PT_SIZE, nd.virt, used0, used, mem0, mem, own)
    requires Walkable(h, nd) && Pde(va) < PT_SIZE && !UserPage(h0, d0, Pde(va), Pte(va))
    ensures ToPhys(h, nd, va) == ToPhys(h, d, va) && (Mapped(d, va) <==> Mapped(nd, va))
    ensures Mapped(d, va) ==> EntryOf(h, nd, va) == EntryOf(h, d, va)
  {
    var i, j := Pde(va), Pte(va);
    assert SlotCloned(h0, d0, h, d, nd.virt, i, used0, mem0, mem, own);
    if d0.virt[i] != 0 && UserPresent(d0.tables[i]) {
      SlotKept(h0, d0, h, d, lo, hi, i);
      assert ClonedEntry(h0[d0.virt[i]][j], h[nd.virt[i]][j], used0, mem0, mem);
    }
  }

  lemma SharedPointers(h0: Heap, d0: Dir, h: Heap, d: Dir, lo: nat, hi: nat, nd: Dir,
                       used0: set<nat>, used: set<nat>, mem0: nat -> Page, mem: nat -> Page, own: map<nat, Place>)
    requires DirVals(h0, d0, h, d, lo, hi, PT_SIZE, nd.virt, used0, used, mem0, mem, own)
    ensures forall i :: 0 <= i < PT_SIZE && !UserPresent(d0.tables[i]) ==> nd.virt[i] == d.virt[i]
  {
    forall i | 0 <= i < PT_SIZE && !UserPresent(d0.tables[i]) ensures nd.virt[i] == d.virt[i] {
      assert SlotCloned(h0, d0, h, d, nd.virt, i, used0, mem0, mem, own);
    }
  }

  lemma CloneIsolates(h0: Heap, d0: Dir, h: Heap, d: Dir, lo: nat, hi: nat, nd: Dir,
                      used0: set<nat>, used: set<nat>, mem0: nat -> Page, mem: nat -> Page, own: map<nat, Place>)
    requires UserBelow(h0, d0, lo, used0)
    requires DirVals(h0, d0, h, d, lo, hi, PT_SIZE, nd.virt, used0, used, mem0, mem, own)
    requires |nd.tables| == PT_SIZE
    ensures Walkable(h, nd) && Isolated(h0, d0, h, d, nd, used0, mem0, mem)
  {
    NewWalkable(h0, d0, h, d, lo, hi, nd, used0, used, mem0, mem, own);
    forall i: nat, j: nat | UserPage(h0, d0, i, j)
      ensures nd.virt[i] != 0 && ClonedEntry(h0[d0.virt[i]][j], h[nd.virt[i]][j], used0, mem0, mem)
      ensures FrameNo(h[nd.virt[i]][j]) in own && own[FrameNo(h[nd.virt[i]][j])] == Place(i, j)
    {
      assert SlotCloned(h0, d0, h, d, nd.virt, i, used0, mem0, mem, own);
    }
    forall va: nat | Pde(va) < PT_SIZE && !UserPage(h0, d0, Pde(va), Pte(va))
      ensures ToPhys(h, nd, va) == ToPhys(h, d, va) && (Mapped(d, va) <==> Mapped(nd, va))
      ensures Mapped(d, va) ==> EntryOf(h, nd, va) == EntryOf(h, d, va)
    {
      OtherWalks(h0, d0, h, d, lo, hi, nd, used0, used, mem0, mem, own, va);
    }
  }

  /** What a finished clone says of the physical entries: outside the mapping area the old directory
      has only lost its accessed flags, the new one shares every entry that is not a user's, and
      wherever it has a table its entry names that table's frame; a user's entry carries no flag. */
  ghost predicate Copied(phys: nat -> nat, d0: Dir, d: Dir, nd: Dir, lo: nat, hi: nat)
    requires |d0.tables| == |d.tables| == |nd.tables| == |nd.virt| == PT_SIZE
  {
    && (forall i, j: nat :: 0 <= i < PT_SIZE && !(lo <= i < hi) ==>
          (Bit(d.tables[i], j) <==> Bit(d0.tables[i], j) && j != ACCESSED_BIT))
    && (forall i :: 0 <= i < PT_SIZE && !UserPresent(d0.tables[i]) ==> nd.tables[i] == d.tables[i])
    && (forall i :: 0 <= i < PT_SIZE && nd.virt[i] != 0 ==> FrameNo(nd.tables[i]) * PAGE_SIZE == phys(nd.virt[i]))
    && (forall i :: 0 <= i < PT_SIZE && UserPresent(d0.tables[i]) ==> Flags(nd.tables[i]) == 0)
  }

  lemma AllCopied(phys: nat -> nat, h: Heap, d0: Dir, d: Dir, nd: Dir, lo: nat, hi: nat)
    requires Entered(phys, d0, d, lo, hi, PT_SIZE, nd) && DirOk(h, d) && Linked(phys, d)
    requires forall i :: 0 <= i < PT_SIZE && !UserPresent(d0.tables[i]) ==> nd.virt[i] == d.virt[i]
    ensures Copied(phys, d0, d, nd, lo, hi)
  {
    forall i, j: nat | 0 <= i < PT_SIZE && !(lo <= i < hi)
      ensures Bit(d.tables[i], j) <==> Bit(d0.tables[i], j) && j != ACCESSED_BIT
    {
      UnsetBit(d0.tables[i], ACCESSED_BIT, j);
    }
    forall i | 0 <= i < PT_SIZE
      ensures if UserPresent(d0.tables[i]) then Flags(nd.tables[i]) == 0 else nd.tables[i] == d.tables[i]
      ensures nd.virt[i] != 0 ==> FrameNo(nd.tables[i]) * PAGE_SIZE == phys(nd.virt[i])
    {
      assert NewSlot(phys, d0, d, nd, i);
    }
  }

  /** The slot loop of a directory clone. */
  method CloneSlots(k: Kernel, buddy: Buddy, pd: PageDir, nd: PageDir, ghost h0: Heap, ghost d0: Dir,
                    ghost used0: set<nat>, ghost mem0: nat -> Page, ghost y: Sys, ghost can: bool, ghost free: nat,
                    ghost plan: seq<nat>)
    returns (ok: bool, ghost own: map<nat, Place>)
    requires At(buddy, y) && pd != nd && UserBelow(h0, d0, buddy.first, used0)
    requires DirState(k, buddy, pd, 0, nd, h0, d0, used0, mem0, map[])
    requires CanMap(y, can) && Left(k.bitmap.frames.Length, k.bitmap.Used(), free)
    requires Plan(h0, d0, plan) && |plan| == PT_SIZE
    modifies k, pd, nd, buddy, k.bitmap.frames
    ensures ok <==> CanClone(can, free, SumTo(plan, PT_SIZE))
    ensures ok ==> At(buddy, y) && DirState(k, buddy, pd, PT_SIZE, nd, h0, d0, used0, mem0, own)
  {
    own := map[];
    ghost var left: nat := free;
    for i := 0 to PT_SIZE
      invariant At(buddy, y) && DirState(k, buddy, pd, i, nd, h0, d0, used0, mem0, own)
      invariant PagesLeft(plan, i, can, free, left) && Left(k.bitmap.frames.Length, k.bitmap.Used(), left)
    {
      PagesTaken(plan, i, can, free, left);
      ok, own := CloneSlot(k, buddy, pd, nd, i, h0, d0, used0, mem0, own, y, can, left, plan, plan[i]);
      if !ok {
        return;
      }
      left := left - plan[i];
    }
    ok := true;
  }

  /** The free frames that single pages can be copied to. */
  ghost function FreeSingles(bitmap: Bitmap): set<nat>
    reads bitmap.frames
  {
    FrameTheorems.Singles(bitmap.Used(), bitmap.frames.Length)
  }

  /** Nothing in use before has been overwritten or released. */
  ghost predicate Untouched(used0: set<nat>, used: set<nat>, mem0: nat -> Page, mem: nat -> Page) {
    used0 <= used && forall f :: f in used0 ==> mem(f) == mem0(f)
  }

  /** Every frame taken holds the copy of a page: none is lost. */
  ghost predicate NoneLost(h0: Heap, d0: Dir, h: Heap, nd: Dir, used0: set<nat>, used: set<nat>)
    requires Walkable(h0, d0) && |nd.virt| == PT_SIZE
  {
    forall f :: f in used && f !in used0 ==> exists p :: HoldsCopy(h0, d0, h, nd.virt, f, p)
  }

  /** A finished clone `nd` of the directory that was `d0` and is now `d`. */
  ghost predicate Cloned(phys: nat -> nat, h0: Heap, d0: Dir, h: Heap, d: Dir, lo: nat, hi: nat, nd: Dir,
                         used0: set<nat>, used: set<nat>, mem0: nat -> Page, mem: nat -> Page)
  {
    true == (
    && Walkable(h0, d0) && Walkable(h, d) && Walkable(h, nd) && hi <= PT_SIZE
    && Isolated(h0, d0, h, d, nd, used0, mem0, mem)
    && KernelOnly(h0, d0, h, d, lo, hi)
    && Copied(phys, d0, d, nd, lo, hi)
    && Untouched(used0, used, mem0, mem) && NoneLost(h0, d0, h, nd, used0, used))
  }

  lemma CloneDone(phys: nat -> nat, h0: Heap, d0: Dir, h: Heap, d: Dir, lo: nat, hi: nat, nd: Dir,
                  used0: set<nat>, used: set<nat>, mem0: nat -> Page, mem: nat -> Page, own: map<nat, Place>)
    requires UserBelow(h0, d0, lo, used0) && DirOk(h, d) && Linked(phys, d)
    requires DirVals(h0, d0, h, d, lo, hi, PT_SIZE, nd.virt, used0, used, mem0, mem, own)
    requires Entered(phys, d0, d, lo, hi, PT_SIZE, nd)
    ensures Cloned(phys, h0, d0, h, d, lo, hi, nd, used0, used, mem0, mem)
  {
    CloneIsolates(h0, d0, h, d, lo, hi, nd, used0, used, mem0, mem, own);
    SharedPointers(h0, d0, h, d, lo, hi, nd, used0, used, mem0, mem, own);
    AllCopied(phys, h, d0, d, nd, lo, hi);
  }

  lemma SlotsDone(k: Kernel, buddy: Buddy, pd: PageDir, nd: PageDir, h0: Heap, d0: Dir,
                  used0: set<nat>, mem0: nat -> Page, own: map<nat, Place>)
    requires UserBelow(h0, d0, buddy.first, used0) && DirState(k, buddy, pd, PT_SIZE, nd, h0, d0, used0, mem0, own)
    ensures Ready(k, buddy, pd)
    ensures Cloned(k.layout.phys, h0, d0, k.heap, pd.Val(), buddy.first, buddy.first + buddy.tops, nd.Val(),
                   used0, k.bitmap.Used(), mem0, k.mem)
  {
    CloneDone(k.layout.phys, h0, d0, k.heap, pd.Val(), buddy.first, buddy.first + buddy.tops, nd.Val(),
              used0, k.bitmap.Used(), mem0, k.mem, own);
  }

  lemma NothingCloned(phys: nat -> nat, h0: Heap, d0: Dir, lo: nat, hi: nat, used0: set<nat>, mem0: nat -> Page)
    requires Walkable(h0, d0) && hi <= PT_SIZE
    ensures DirVals(h0, d0, h0, d0, lo, hi, 0, Zeros(), used0, used0, mem0, mem0, map[])
    ensures Entered(phys, d0, d0, lo, hi, 0, Dir(Zeros(), Zeros()))
  {
    KernelOnlyRefl(h0, d0, lo, hi);
  }

  /** Clones the directory `pd` into `nd`: exactly if there is a page of the mapping area to copy
      through and a free single frame for every user page.  The new directory's user entries carry
      no flags, so that only the software walk reaches their tables. */
  method ClonePageDir(k: Kernel, buddy: Buddy, pd: PageDir, nd: PageDir, ghost y: Sys) returns (ok: bool)
    requires At(buddy, y) && Ready(k, buddy, pd) && pd != nd
    requires UserBelow(k.heap, pd.Val(), buddy.first, k.bitmap.Used())
    modifies k, pd, nd, buddy, k.bitmap.frames
    ensures ok <==> CanClone(MapsOne(y), |old(FreeSingles(k.bitmap))|, PageCount(old(k.heap), old(pd.Val())))
    ensures ok ==>
              && At(buddy, y) && Ready(k, buddy, pd)
              && Cloned(k.layout.phys, old(k.heap), old(pd.Val()), k.heap, pd.Val(), buddy.first, buddy.first + buddy.tops,
                        nd.Val(), old(k.bitmap.Used()), k.bitmap.Used(), old(k.mem), k.mem)
  {
    ghost var h0, d0, used0, mem0 := k.heap, pd.Val(), k.bitmap.Used(), k.mem;
    ghost var lo, hi := buddy.first, buddy.first + buddy.tops;
    ghost var can, free := MapsOne(y), |FreeSingles(k.bitmap)|;
    nd.tables, nd.virt := Zeros(), Zeros();
    NothingCloned(k.layout.phys, h0, d0, lo, hi, used0, mem0);
    ghost var own;
    ghost var plan := seq<nat>(PT_SIZE, i requires 0 <= i < PT_SIZE => SlotPages(h0, d0, i));
    ok, own := CloneSlots(k, buddy, pd, nd, h0, d0, used0, mem0, y, can, free, plan);
    if ok {
      SlotsDone(k, buddy, pd, nd, h0, d0, used0, mem0, own);
    }
  }
}
