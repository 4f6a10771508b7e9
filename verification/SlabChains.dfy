/** The free chunks inside a slab: a chain of links in address order, ended by a sentinel.

    A chunk pointer within a slab is its slot number; slot 16 is the sentinel behind the last
    chunk.  Chunk pointers are compared by address, as the source does. */
module SlabChains {
  import opened SlabSpec

  /** `first` is the base chunk's free link, `next[i]` the free link of chunk `i`. */
  datatype SlabRec = SlabRec(numFree: nat, first: nat, next: seq<nat>)

  /** The free chain runs through exactly the free slots in increasing order and ends at the
      sentinel. */
  predicate ChainOk(r: SlabRec, f: set<nat>) {
    && r.numFree == |f| && r.first == NextFree(f, 0) && |r.next| == CAPACITY
    && (forall i {:trigger r.next[i]} :: 0 <= i < CAPACITY && i in f ==> r.next[i] == NextFree(f, i + 1))
  }

  // ---- following the links ----

  /** The chunk that `n` links lead to from the base chunk; links do not go on from the sentinel. */
  function Reached(r: SlabRec, n: nat): nat
    requires |r.next| == CAPACITY
  {
    if n == 0 then r.first
    else var p := Reached(r, n - 1); if p < CAPACITY then r.next[p] else p
  }

  ghost predicate Upward(r: SlabRec, m: nat)
    requires |r.next| == CAPACITY
  {
    forall k: nat, n: nat :: k < n <= m ==> Reached(r, k) < Reached(r, n)
  }

  ghost function Slots(r: SlabRec, m: nat): set<nat>
    requires |r.next| == CAPACITY
  {
    set n: nat | n < m :: Reached(r, n)
  }

  /** The links in memory lead upward through exactly the slots `f`, and after `num_free` of them
      to the sentinel. */
  ghost predicate Threads(r: SlabRec, f: set<nat>) {
    && |r.next| == CAPACITY
    && Upward(r, r.numFree) && Reached(r, r.numFree) == CAPACITY
    && f == Slots(r, r.numFree)
  }

  /** The free slots from `i` on, in order. */
  function Chain(f: set<nat>, i: nat): (c: seq<nat>)
    requires i <= CAPACITY
    ensures forall k :: 0 <= k < |c| ==> i <= c[k] < CAPACITY && c[k] in f
    ensures forall k, l :: 0 <= k < l < |c| ==> c[k] < c[l]
    decreases CAPACITY - i, f
  {
    var j := NextFree(f, i);
    if j == CAPACITY then [] else [j] + Chain(f, j + 1)
  }

  lemma {:induction false} ChainComplete(f: set<nat>, i: nat, x: nat)
    requires i <= CAPACITY
    ensures x in Chain(f, i) <==> x in f && i <= x < CAPACITY
    decreases CAPACITY - i
  {
    var j := NextFree(f, i);
    if j < CAPACITY {
      ChainComplete(f, j + 1, x);
    }
  }

  lemma {:induction false} ChainLength(f: set<nat>, i: nat)
    requires i <= CAPACITY
    ensures |Chain(f, i)| == |set x | x in f && i <= x < CAPACITY|
    decreases CAPACITY - i
  {
    var j := NextFree(f, i);
    var rest := set x | x in f && i <= x < CAPACITY;
    if j < CAPACITY {
      ChainLength(f, j + 1);
      assert rest == {j} + set x | x in f && j + 1 <= x < CAPACITY;
    } else {
      assert rest == {};
    }
  }

  /** Where the enumeration stands after `k` slots. */
  function ChainAt(f: set<nat>, i: nat, k: nat): nat
    requires i <= CAPACITY
  {
    if k < |Chain(f, i)| then Chain(f, i)[k] else CAPACITY
  }

  lemma {:induction false} ChainStep(f: set<nat>, i: nat, k: nat)
    requires i <= CAPACITY && k < |Chain(f, i)|
    ensures NextFree(f, ChainAt(f, i, k) + 1) == ChainAt(f, i, k + 1)
    decreases CAPACITY - i
  {
    if k > 0 {
      ChainStep(f, NextFree(f, i) + 1, k - 1);
    }
  }

  lemma {:induction false} ReachedIsChain(r: SlabRec, f: set<nat>, n: nat)
    requires ChainOk(r, f) && n <= |Chain(f, 0)|
    ensures Reached(r, n) == ChainAt(f, 0, n)
  {
    if n > 0 {
      ReachedIsChain(r, f, n - 1);
      ChainStep(f, 0, n - 1);
    }
  }

  lemma ChainSlots(r: SlabRec, f: set<nat>, x: nat)
    requires ChainOk(r, f) && x in f && x < CAPACITY
    ensures x in Slots(r, |Chain(f, 0)|)
  {
    var c := Chain(f, 0);
    ChainComplete(f, 0, x);
    var n :| 0 <= n < |c| && c[n] == x;
    ReachedIsChain(r, f, n);
  }

  lemma ChainThreads(r: SlabRec, f: set<nat>)
    requires ChainOk(r, f) && forall i :: i in f ==> i < CAPACITY
    ensures Threads(r, f)
  {
    var c := Chain(f, 0);
    assert r.numFree == |c| by {
      ChainLength(f, 0);
      assert f == set x | x in f && 0 <= x < CAPACITY;
    }
    forall n: nat | n <= |c| ensures Reached(r, n) == ChainAt(f, 0, n) {
      ReachedIsChain(r, f, n);
    }
    forall x | x in f ensures x in Slots(r, |c|) {
      ChainSlots(r, f, x);
    }
  }

  lemma {:induction false} SlotsCount(r: SlabRec, m: nat)
    requires |r.next| == CAPACITY && Upward(r, m)
    ensures |Slots(r, m)| == m
  {
    if m == 0 {
      assert Slots(r, m) == {};
    } else {
      SlotsCount(r, m - 1);
      SlotsNext(r, m - 1);
      assert Reached(r, m - 1) !in Slots(r, m - 1);
    }
  }

  lemma SlotsNext(r: SlabRec, m: nat)
    requires |r.next| == CAPACITY
    ensures Slots(r, m + 1) == Slots(r, m) + {Reached(r, m)}
  {
  }

  lemma ThreadedNext(r: SlabRec, f: set<nat>, i: nat, n: nat)
    requires Threads(r, f) && i <= CAPACITY && n <= r.numFree
    requires i == if n == 0 then 0 else Reached(r, n - 1) + 1
    ensures NextFree(f, i) == Reached(r, n)
  {
    var y := NextFree(f, i);
    if n < r.numFree {
      assert Reached(r, n) in f;
    }
    if y < CAPACITY {
      var k: nat :| k < r.numFree && Reached(r, k) == y;
      assert k >= n;
    }
  }

  lemma ThreadedLink(r: SlabRec, f: set<nat>, i: nat)
    requires Threads(r, f) && i in f
    ensures i < CAPACITY && r.next[i] == NextFree(f, i + 1)
  {
    var n: nat :| n < r.numFree && Reached(r, n) == i;
    ThreadedNext(r, f, i + 1, n + 1);
    assert Reached(r, n + 1) == r.next[i];
  }

  lemma ThreadedChain(r: SlabRec, f: set<nat>)
    requires Threads(r, f)
    ensures ChainOk(r, f) && forall i :: i in f ==> i < CAPACITY
  {
    SlotsCount(r, r.numFree);
    ThreadedNext(r, f, 0, 0);
    forall i | i in f ensures i < CAPACITY && r.next[i] == NextFree(f, i + 1) {
      ThreadedLink(r, f, i);
    }
  }

  /** What the invariant of a slab means for the links in memory: they lead from the base chunk
      through exactly the free slots, in increasing order, and `num_free` links reach the
      sentinel. */
  lemma ChainIff(r: SlabRec, f: set<nat>)
    ensures ChainOk(r, f) && (forall i :: i in f ==> i < CAPACITY) <==> Threads(r, f)
  {
    if Threads(r, f) {
      ThreadedChain(r, f);
    }
    if ChainOk(r, f) && forall i :: i in f ==> i < CAPACITY {
      ChainThreads(r, f);
    }
  }

  // ---- taking and returning a slot ----

  lemma {:induction false} NextAfterTake(f: set<nat>, i: nat, c: nat)
    requires i <= CAPACITY && c in f && c < i
    ensures NextFree(f - {c}, i) == NextFree(f, i)
    decreases CAPACITY - i
  {
    if i < CAPACITY && i !in f {
      NextAfterTake(f, i + 1, c);
    }
  }

  lemma {:induction false} SkipsTaken(f: set<nat>, i: nat)
    requires i <= CAPACITY && NextFree(f, i) < CAPACITY
    ensures NextFree(f - {NextFree(f, i)}, i) == NextFree(f, NextFree(f, i) + 1)
    decreases CAPACITY - i
  {
    var c := NextFree(f, i);
    if i == c {
      NextAfterTake(f, i + 1, c);
    } else {
      SkipsTaken(f, i + 1);
    }
  }

  lemma LaterLinkKept(r: SlabRec, f: set<nat>, i: nat)
    requires ChainOk(r, f) && r.first < CAPACITY && i < CAPACITY && i in f && i != r.first
    ensures r.next[i] == NextFree(f - {r.first}, i + 1)
  {
    assert i > r.first;
    NextAfterTake(f, i + 1, r.first);
  }

  lemma OneLess(f: set<nat>, c: nat)
    requires c in f
    ensures |f - {c}| == |f| - 1
  {
  }

  /** Unlinking the first chunk of the chain. */
  lemma TakeChain(r: SlabRec, f: set<nat>)
    requires ChainOk(r, f) && r.first < CAPACITY
    ensures r.first in f
    ensures ChainOk(r.(numFree := |f| - 1, first := r.next[r.first]), f - {r.first})
  {
    var c := r.first;
    SkipsTaken(f, 0);
    OneLess(f, c);
    forall i | 0 <= i < CAPACITY && i in f - {c} ensures r.next[i] == NextFree(f - {c}, i + 1) {
      LaterLinkKept(r, f, i);
    }
  }

  /** The first free slot once slot `c` is free too. */
  lemma {:induction false} NextAfterReturn(f: set<nat>, i: nat, c: nat)
    requires i <= CAPACITY && c < CAPACITY
    ensures NextFree(f + {c}, i) ==
              if i <= c && NextFree(f, i) > c then c else NextFree(f, i)
    decreases CAPACITY - i
  {
    if i < CAPACITY && i !in f && i != c {
      NextAfterReturn(f, i + 1, c);
    }
  }

  /** A link that does not jump over slot `c` is right once `c` is free. */
  lemma LinkKept(r: SlabRec, f: set<nat>, c: nat, i: nat)
    requires ChainOk(r, f) && c < CAPACITY && i < CAPACITY && i in f
    requires i > c || r.next[i] <= c
    ensures r.next[i] == NextFree(f + {c}, i + 1)
  {
    NextAfterReturn(f, i + 1, c);
  }

  lemma OneMore(f: set<nat>, c: nat)
    requires c !in f
    ensures |f + {c}| == |f| + 1
  {
  }

  lemma ReturnAtHead(r: SlabRec, f: set<nat>, c: nat, r': SlabRec)
    requires ChainOk(r, f) && c < CAPACITY && c !in f && r.first > c
    requires r' == SlabRec(|f| + 1, c, r.next[c := r.first])
    ensures ChainOk(r', f + {c})
  {
    OneMore(f, c);
    NextAfterReturn(f, 0, c);
    NextAfterReturn(f, c + 1, c);
    SameNext(f, 0, c + 1);
    forall i | 0 <= i < CAPACITY && i in f + {c} ensures r'.next[i] == NextFree(f + {c}, i + 1) {
      if i != c {
        LinkKept(r, f, c, i);
      }
    }
  }

  lemma {:induction false} SameNext(f: set<nat>, i: nat, j: nat)
    requires i <= CAPACITY && i <= j <= NextFree(f, i)
    ensures NextFree(f, j) == NextFree(f, i)
    decreases j - i
  {
    if i < j {
      SameNext(f, i + 1, j);
    }
  }

  lemma ReturnAfter(r: SlabRec, f: set<nat>, c: nat, p: nat, r': SlabRec)
    requires ChainOk(r, f) && c < CAPACITY && c !in f && p < c && p in f && r.next[p] > c
    requires r' == SlabRec(|f| + 1, r.first, r.next[c := r.next[p]][p := c])
    ensures ChainOk(r', f + {c})
  {
    OneMore(f, c);
    SameNext(f, p + 1, c + 1);
    NextAfterReturn(f, 0, c);
    NextAfterReturn(f, c + 1, c);
    NextAfterReturn(f, p + 1, c);
    forall i | 0 <= i < CAPACITY && i in f + {c} ensures r'.next[i] == NextFree(f + {c}, i + 1) {
      if i != c && i != p {
        assert i < c ==> i < p;
        LinkKept(r, f, c, i);
      }
    }
  }

  /** Chunk pointers of one slab compare as their slot numbers do. */
  method Precedes(size: nat, s: nat, i: nat, j: nat) returns (before: bool)
    ensures before <==> i < j
  {
    if i < j {
      ChunkOrder(size, s, i, j);
    } else if j < i {
      ChunkOrder(size, s, j, i);
    }
    before := ChunkAddr(size, s, i) < ChunkAddr(size, s, j);
  }

  /** The links of a chain stay in it, or reach the sentinel; none leads to a used slot. */
  lemma ChainLinks(r: SlabRec, f: set<nat>, c: nat, p: nat)
    requires ChainOk(r, f) && c < CAPACITY && c !in f
    ensures r.first != c && (r.first < c ==> r.first in f)
    ensures p < c && p in f ==> r.next[p] != c && r.next[p] > p && (r.next[p] < c ==> r.next[p] in f)
  {
  }

  /** The last chunk of the chain before `c`; the walk stops before the sentinel. */
  method FindPrevious(size: nat, s: nat, r: SlabRec, c: nat, ghost f: set<nat>) returns (prev: nat)
    requires ChainOk(r, f) && c < CAPACITY && c !in f && r.first < c
    ensures prev < c && prev in f && r.next[prev] > c
  {
    prev := r.first;
    ChainLinks(r, f, c, prev);
    var more := Precedes(size, s, r.next[prev], c);
    while more
      invariant prev < c && prev in f && r.next[prev] != c
      invariant more <==> r.next[prev] < c
      invariant more ==> prev < r.next[prev] && r.next[prev] in f
      decreases c - prev
    {
      prev := r.next[prev];
      ChainLinks(r, f, c, prev);
      more := Precedes(size, s, r.next[prev], c);
    }
  }

  /** Links chunk `c` back into the chain in address order. */
  method ReturnChunk(size: nat, s: nat, r: SlabRec, c: nat, ghost f: set<nat>) returns (r': SlabRec)
    requires ChainOk(r, f) && c < CAPACITY && c !in f
    ensures ChainOk(r', f + {c})
  {
    ChainLinks(r, f, c, c);
    var atHead := Precedes(size, s, c, r.first);
    if atHead {
      r' := SlabRec(r.numFree + 1, c, r.next[c := r.first]);
      ReturnAtHead(r, f, c, r');
    } else {
      var prev := FindPrevious(size, s, r, c, f);
      r' := SlabRec(r.numFree + 1, r.first, r.next[c := r.next[prev]][prev := c]);
      ReturnAfter(r, f, c, prev, r');
    }
  }

  predicate ChainsOk(slabs: map<nat, SlabRec>, a: Cache) {
    slabs.Keys == a.slots.Keys && forall s :: s in slabs ==> ChainOk(slabs[s], a.slots[s])
  }
}
