/** The buddy allocator's operations as functions of its state.

    `lists[o]` is the free list of order `o` from head to tail, `numFree[o]` its counter and
    `bits[o]` the set of block numbers whose bit is 1 in the order's
    bitmap (`BuddyMaps` gives the word and bit each block has).  `first` and `tops` give
    the managed range in top-order (4 MiB) blocks. */
module BuddySpec {
  import opened Basics
  import opened BuddyBlocks

  datatype State = State(
    first: nat,
    tops: nat,
    lists: seq<seq<nat>>,
    numFree: seq<nat>,
    bits: seq<set<nat>>)

  /** `AsWritten` is the source.  `PairBase` is a variant that differs in one point: after a
      merge it goes on with the base of the merged pair instead of the address it was given. */
  datatype Variant = AsWritten | PairBase

  predicate Shape(s: State) {
    |s.lists| == MAX_ORDER && |s.numFree| == MAX_ORDER && |s.bits| == MAX_ORDER
  }

  // ---- orders ----

  /** The least order, at most the top one, from `o` up whose blocks hold `n` frames. */
  function OrderFrom(n: nat, o: nat): (r: nat)
    requires o <= TOP
    ensures o <= r <= TOP
    decreases TOP - o
  {
    if n <= Pow2(o) || o == TOP then o else OrderFrom(n, o + 1)
  }

  function BuddyOrder(n: nat): (r: nat)
    ensures r <= TOP
  {
    if n > MAX_BUDDY_NFRAMES then TOP else OrderFrom(n, 0)
  }

  // ---- primitive updates ----

  function SetBit(s: State, o: nat, k: nat): (r: State)
    requires Shape(s) && o <= TOP
    ensures Shape(r)
  {
    s.(bits := s.bits[o := s.bits[o] + {k}])
  }

  function ClearBit(s: State, o: nat, k: nat): (r: State)
    requires Shape(s) && o <= TOP
    ensures Shape(r)
  {
    s.(bits := s.bits[o := s.bits[o] - {k}])
  }

  function SetUsed(s: State, o: nat, a: nat): (r: State)
    requires Shape(s) && o <= TOP
    ensures Shape(r)
  {
    SetBit(s, o, Blk(o, a))
  }

  function SetUnused(s: State, o: nat, a: nat): (r: State)
    requires Shape(s) && o <= TOP
    ensures Shape(r)
  {
    ClearBit(s, o, Blk(o, a))
  }

  function Insert(s: State, o: nat, a: nat): (r: State)
    requires Shape(s) && o <= TOP
    ensures Shape(r)
  {
    s.(lists := s.lists[o := [a] + s.lists[o]], numFree := s.numFree[o := s.numFree[o] + 1])
  }

  function RemoveHead(s: State, o: nat): (r: State)
    requires Shape(s) && o <= TOP
    ensures Shape(r)
  {
    if s.numFree[o] == 0 then s
    else
      s.(lists := s.lists[o := if s.lists[o] == [] then [] else s.lists[o][1..]],
         numFree := s.numFree[o := s.numFree[o] - 1])
  }

  /** Index of the first list entry whose block covers `a`; the length when there is none. */
  function FindCovering(list: seq<nat>, o: nat, a: nat): (i: nat)
    ensures i <= |list|
    ensures i < |list| ==> list[i] <= a < list[i] + Size(o)
    ensures forall j :: 0 <= j < i ==> !(list[j] <= a < list[j] + Size(o))
  {
    if list == [] || list[0] <= a < list[0] + Size(o) then 0
    else 1 + FindCovering(list[1..], o, a)
  }

  /** With a non-zero counter and no covering entry the source follows a null link; the
      function then leaves the state as it is.  `Coalescing` shows this never arises. */
  function RemoveFrame(s: State, o: nat, a: nat): (r: State)
    requires Shape(s) && o <= TOP
    ensures Shape(r)
  {
    var i := FindCovering(s.lists[o], o, a);
    if s.numFree[o] == 0 || i == |s.lists[o]| then s
    else
      s.(lists := s.lists[o := s.lists[o][..i] + s.lists[o][i + 1..]],
         numFree := s.numFree[o := s.numFree[o] - 1])
  }

  // ---- allocation ----

  function Slice(s: State, a: nat, start: nat, target: nat): (r: State)
    requires Shape(s) && target < start <= TOP
    ensures Shape(r)
    decreases start
  {
    var s1 := SetUsed(s, start, a);
    var s2 := Insert(s1, start - 1, Middle(start, a));
    if start - 1 > target then Slice(s2, a, start - 1, target)
    else SetUsed(s2, target, a)
  }

  /** The search through the orders above the requested one, from `i` up. */
  function AllocAbove(s: State, order: nat, i: nat): (r: (State, Option<nat>))
    requires Shape(s) && order < i <= MAX_ORDER
    ensures Shape(r.0)
    decreases MAX_ORDER - i
  {
    if i == MAX_ORDER then (s, None)
    else if s.numFree[i] == 0 then AllocAbove(s, order, i + 1)
    else if s.lists[i] == [] then AllocAbove(s.(numFree := s.numFree[i := 0]), order, i + 1)
    else (Slice(RemoveHead(s, i), s.lists[i][0], i, order), Some(s.lists[i][0]))
  }

  /** At the requested order the source trusts a non-zero counter and reads the head. */
  predicate HeadReadable(s: State, order: nat)
    requires Shape(s) && order <= TOP
  {
    s.numFree[order] != 0 ==> s.lists[order] != []
  }

  /** One request of at most one top block; `None` is ENOMEM. */
  function Alloc(s: State, n: nat): (r: (State, Option<nat>))
    requires Shape(s) && HeadReadable(s, BuddyOrder(n))
    ensures Shape(r.0)
  {
    var order := BuddyOrder(n);
    if s.numFree[order] != 0 then
      var a := s.lists[order][0];
      (SetUsed(RemoveHead(s, order), order, a), Some(a))
    else
      AllocAbove(s, order, order + 1)
  }

  // ---- release ----

  function Coalesce(v: Variant, s: State, o: nat, a: nat): (r: State)
    requires Shape(s) && o <= TOP
    ensures Shape(r)
    decreases TOP - o
  {
    var k := Blk(o, a);
    var s1 := SetUnused(s, o, a);
    if o < TOP && Sibling(k) !in s1.bits[o] then
      Coalesce(v, RemoveFrame(s1, o, Base(o, Sibling(k))), o + 1,
               if v == AsWritten then a else Base(o + 1, k / 2))
    else
      Insert(s1, o, a)
  }

  /** Climbs to the first order whose bit for `a` is set.  Above the top order the source would
      read past its bitmaps; `FreeFindsOrder` shows the climb stops before. */
  function FreeRec(v: Variant, s: State, o: nat, a: nat): (r: State)
    requires Shape(s) && o <= TOP
    ensures Shape(r)
    decreases TOP - o
  {
    if Blk(o, a) in s.bits[o] then Coalesce(v, s, o, a)
    else if o == TOP then s
    else FreeRec(v, s, o + 1, a)
  }

  function FreeFrames(v: Variant, s: State, a: nat, n: nat): (r: State)
    requires Shape(s)
    ensures Shape(r)
  {
    FreeRec(v, s, BuddyOrder(n), a)
  }

  // ---- creation ----

  function TopBlocks(first: nat, tops: nat): (r: seq<nat>)
    ensures |r| == tops
    ensures forall i :: 0 <= i < tops ==> r[i] == Base(TOP, first + i)
  {
    seq<nat>(tops, (i: nat) => Base(TOP, first + i))
  }

  /** The state `buddy_alloc_create` builds for `tops` blocks of 4 MiB from block `first`. */
  function Create(first: nat, tops: nat): (r: State)
    ensures Shape(r)
  {
    State(first, tops,
          seq(MAX_ORDER, o => if o == TOP then TopBlocks(first, tops) else []),
          seq(MAX_ORDER, o => if o == TOP then tops else 0),
          seq(MAX_ORDER, o => {}))
  }

  // ---- what the arithmetic above means ----

  lemma {:induction false} OrderFromLeast(n: nat, o: nat)
    requires o <= TOP
    ensures n <= Pow2(OrderFrom(n, o)) || OrderFrom(n, o) == TOP
    ensures forall p :: o <= p < OrderFrom(n, o) ==> n > Pow2(p)
    decreases TOP - o
  {
    if !(n <= Pow2(o) || o == TOP) {
      OrderFromLeast(n, o + 1);
    }
  }

  lemma Pow2Top()
    ensures Pow2(TOP) == 1024
  {
    assert Pow2(5) == 32;
    assert Pow2(10) == 2 * (2 * (2 * (2 * (2 * Pow2(5)))));
  }

  /** The chosen order is the smallest that can hold the request. */
  lemma BuddyOrderLeast(n: nat)
    ensures n <= MAX_BUDDY_NFRAMES ==> n <= Pow2(BuddyOrder(n))
    ensures n > MAX_BUDDY_NFRAMES ==> BuddyOrder(n) == TOP
    ensures forall p :: 0 <= p < BuddyOrder(n) ==> n > Pow2(p)
  {
    Pow2Top();
    OrderFromLeast(n, 0);
    if n > MAX_BUDDY_NFRAMES {
      forall p | 0 <= p < BuddyOrder(n) ensures n > Pow2(p) {
        Pow2Monotone(p, TOP);
      }
    }
  }

  lemma {:induction false} Pow2Monotone(p: nat, q: nat)
    requires p <= q
    ensures Pow2(p) <= Pow2(q)
    decreases q - p
  {
    if p < q {
      Pow2Monotone(p, q - 1);
    }
  }

  /** A frame count that fits a block selects no larger order. */
  lemma OrderFits(n: nat, o: nat)
    requires o <= TOP && n <= Pow2(o)
    ensures BuddyOrder(n) <= o
  {
    BuddyOrderLeast(n);
  }
}
