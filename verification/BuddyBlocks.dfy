/** Arithmetic of the buddy allocator's blocks.

    A block of order `o` covers `PAGE_SIZE * 2^o` bytes.  Block `k` of order `o` starts at
    `Base(o, k)`, and the byte address `a` lies in block `Blk(o, a)` of order `o`.  Both are
    defined one order at a time, so that the relation between a block and its two halves is
    linear; the lemmas below relate them to the closed forms the source computes. */
module BuddyBlocks {
  import opened Basics

  const MAX_ORDER: nat := 11
  const TOP: nat := 10
  const MAP_SIZE: nat := 32
  const MAX_BUDDY_NFRAMES: nat := 1024

  function Pow2(n: nat): (r: nat)
    ensures r >= 1
  {
    if n == 0 then 1 else 2 * Pow2(n - 1)
  }

  function Size(o: nat): (r: nat)
    ensures r >= PAGE_SIZE
  {
    PAGE_SIZE * Pow2(o)
  }

  /** Where the second half of a block of order `o` at `a` starts. */
  function Middle(o: nat, a: nat): nat {
    a + Size(o) / 2
  }

  /** Start address of block `k` of order `o`. */
  function Base(o: nat, k: nat): nat {
    if o == 0 then PAGE_SIZE * k else Base(o - 1, 2 * k)
  }

  /** Number of the order-`o` block that holds address `a`. */
  function Blk(o: nat, a: nat): nat {
    if o == 0 then a / PAGE_SIZE else Blk(o - 1, a) / 2
  }

  function Sibling(k: nat): (r: nat)
    ensures r != k && r / 2 == k / 2
  {
    if k % 2 == 0 then k + 1 else k - 1
  }

  predicate Aligned(o: nat, a: nat) {
    a == Base(o, Blk(o, a))
  }

  lemma {:induction false} BaseIsMultiple(o: nat, k: nat)
    ensures Base(o, k) == k * Size(o)
  {
    if o > 0 {
      BaseIsMultiple(o - 1, 2 * k);
      assert Size(o) == 2 * Size(o - 1);
      calc {
        Base(o, k);
        2 * k * Size(o - 1);
        k * (2 * Size(o - 1));
      }
    }
  }

  /** An address lies in a block exactly when the block is the one its number names. */
  lemma {:induction false} InBlock(o: nat, k: nat, a: nat)
    ensures Base(o, k) <= a < Base(o, k) + Size(o) <==> Blk(o, a) == k
  {
    if o > 0 {
      InBlock(o - 1, 2 * k, a);
      InBlock(o - 1, 2 * k + 1, a);
      SecondHalf(o, k);
    }
  }

  /** The right half starts half a block after the left half. */
  lemma SecondHalf(o: nat, k: nat)
    requires o > 0
    ensures Base(o - 1, 2 * k + 1) == Base(o, k) + Size(o) / 2
    ensures Size(o) == 2 * Size(o - 1)
  {
    BaseIsMultiple(o - 1, 2 * k + 1);
    BaseIsMultiple(o - 1, 2 * k);
    assert (2 * k + 1) * Size(o - 1) == 2 * k * Size(o - 1) + Size(o - 1);
  }

  /** Blocks of one order are laid out side by side. */
  lemma BaseOrder(o: nat, k: nat, j: nat)
    requires k < j
    ensures Base(o, k) + Size(o) <= Base(o, j)
  {
    BaseIsMultiple(o, k);
    BaseIsMultiple(o, j);
    NextMultiple(k, j, Size(o));
  }

  lemma NextMultiple(k: nat, j: nat, d: nat)
    requires k < j
    ensures k * d + d <= j * d
  {
    assert (k + 1) * d <= j * d;
  }

  lemma BlkOfBase(o: nat, k: nat)
    ensures Blk(o, Base(o, k)) == k
    ensures Aligned(o, Base(o, k))
  {
    InBlock(o, k, Base(o, k));
  }

  lemma BaseInjective(o: nat, k: nat, j: nat)
    requires Base(o, k) == Base(o, j)
    ensures k == j
  {
    BlkOfBase(o, k);
    BlkOfBase(o, j);
  }

  /** `Blk` is the division the source writes out. */
  lemma BlkIsQuotient(o: nat, a: nat)
    ensures Blk(o, a) == a / Size(o)
  {
    var k := Blk(o, a);
    InBlock(o, k, a);
    BaseIsMultiple(o, k);
    QuotientBetween(a, Size(o), k);
  }

  lemma QuotientBetween(a: nat, d: nat, q: nat)
    requires d > 0 && q * d <= a < q * d + d
    ensures a / d == q
  {
    var r := a / d;
    assert a == r * d + a % d;
    assert r < q ==> (r + 1) * d <= q * d;
    assert r > q ==> (q + 1) * d <= r * d;
  }

  lemma AlignedIsDivisible(o: nat, a: nat)
    ensures Aligned(o, a) <==> a % Size(o) == 0
  {
    BlkIsQuotient(o, a);
    BaseIsMultiple(o, a / Size(o));
    assert a == a / Size(o) * Size(o) + a % Size(o);
  }

  /** A block's start is also the start of its leftmost sub-block of every lower order. */
  lemma {:induction false} LeftmostBlk(o: nat, k: nat, p: nat)
    requires p <= o
    ensures Base(o, k) == Base(p, Blk(p, Base(o, k)))
  {
    if p < o {
      LeftmostBlk(o - 1, 2 * k, p);
    } else {
      BlkOfBase(o, k);
    }
  }

  /** Two addresses in one block are in one block of every higher order. */
  lemma {:induction false} SameBlkAbove(o: nat, p: nat, a: nat, b: nat)
    requires o <= p && Blk(o, a) == Blk(o, b)
    ensures Blk(p, a) == Blk(p, b)
    decreases p - o
  {
    if o < p {
      SameBlkAbove(o, p - 1, a, b);
    }
  }
}
