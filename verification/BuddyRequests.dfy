/** Requests of more than one top block: they are served piece by piece, and served exactly when
    there is room for all the pieces in different top blocks. */
module BuddyRequests {
  import opened Basics
  import opened BuddyBlocks
  import opened BuddySpec
  import opened BuddyInvariant
  import opened BuddyTheorems

  /** How many requests of at most one top block serve `n` frames. */
  function Requests(n: nat): nat {
    n / MAX_BUDDY_NFRAMES + if n % MAX_BUDDY_NFRAMES != 0 then 1 else 0
  }

  /** Frames asked for by request `i`. */
  function RequestSize(n: nat, i: nat): nat
    requires i < Requests(n)
  {
    if n - i * MAX_BUDDY_NFRAMES > MAX_BUDDY_NFRAMES then MAX_BUDDY_NFRAMES
    else n - i * MAX_BUDDY_NFRAMES
  }

  function RequestOrder(n: nat, i: nat): (o: nat)
    requires i < Requests(n)
    ensures o <= TOP
  {
    BuddyOrder(RequestSize(n, i))
  }

  /** The block behind answer `i`. */
  function RequestBlock(n: nat, addrs: seq<nat>, i: nat): Block
    requires i < |addrs| <= Requests(n)
  {
    Block(RequestOrder(n, i), Blk(RequestOrder(n, i), addrs[i]))
  }

  /** The blocks behind all the answers. */
  ghost function RequestBlocks(n: nat, addrs: seq<nat>): set<Block>
    requires |addrs| <= Requests(n)
  {
    set i: nat | i < |addrs| :: RequestBlock(n, addrs, i)
  }

  /** The top blocks that addresses lie in. */
  function TopsOf(addrs: seq<nat>): (r: seq<nat>)
    ensures |r| == |addrs|
  {
    seq(|addrs|, i requires 0 <= i < |addrs| => Blk(TOP, addrs[i]))
  }

  /** Address `a` starts an aligned managed run of order `o` without a live byte. */
  ghost predicate Spot(s: State, live: set<Block>, o: nat, a: nat)
    requires o <= TOP
  {
    Aligned(o, a) && InRange(s, o, Blk(o, a)) && !HasLive(live, o, Blk(o, a))
  }

  /** Room for the first pieces of a request of `n` frames, each in a top block of its own. */
  ghost predicate Placed(s: State, live: set<Block>, n: nat, addrs: seq<nat>) {
    && |addrs| <= Requests(n) && Distinct(TopsOf(addrs))
    && forall i :: 0 <= i < |addrs| ==> Spot(s, live, RequestOrder(n, i), addrs[i])
  }

  /** There is no room for all pieces of a request of `n` frames. */
  ghost predicate NoPlace(s: State, live: set<Block>, n: nat) {
    forall bs :: |bs| == Requests(n) ==> !Placed(s, live, n, bs)
  }

  /** The pieces at `addrs` have been handed out since `live0` was live. */
  ghost predicate Answered(s: State, live0: set<Block>, live: set<Block>, n: nat, addrs: seq<nat>) {
    && Placed(s, live0, n, addrs)
    && live == live0 + RequestBlocks(n, addrs) && |live| == |live0| + |addrs|
  }

  lemma FullOrder(n: nat, i: nat)
    requires i + 1 < Requests(n)
    ensures RequestOrder(n, i) == TOP
  {
    assert RequestSize(n, i) == MAX_BUDDY_NFRAMES;
    OrderOfFull();
  }

  lemma OrderOfFull()
    ensures BuddyOrder(MAX_BUDDY_NFRAMES) == TOP && Pow2(TOP) == MAX_BUDDY_NFRAMES
  {
    var o := BuddyOrder(MAX_BUDDY_NFRAMES);
    BuddyOrderLeast(MAX_BUDDY_NFRAMES);
    Pow2Top();
    Pow2Monotone(if o < TOP then o else TOP - 1, TOP - 1);
  }

  // ---- one more piece ----

  lemma AnswerApart(s: State, live0: set<Block>, live: set<Block>, n: nat, addrs: seq<nat>, a: nat, j: nat)
    requires Answered(s, live0, live, n, addrs) && j < |addrs| < Requests(n) && !LiveAt(live, a)
    ensures Blk(TOP, addrs[j]) != Blk(TOP, a)
  {
    FullOrder(n, j);
    assert RequestBlock(n, addrs, j) in RequestBlocks(n, addrs);
  }

  lemma BlocksAdded(n: nat, addrs: seq<nat>, a: nat, more: seq<nat>)
    requires |addrs| < Requests(n) && more == addrs + [a]
    ensures RequestBlocks(n, more) == RequestBlocks(n, addrs) + {RequestBlock(n, more, |addrs|)}
  {
    forall b ensures b in RequestBlocks(n, more) <==>
                     b in RequestBlocks(n, addrs) || b == RequestBlock(n, more, |addrs|) {
      if b in RequestBlocks(n, more) {
        var i: nat :| i < |more| && b == RequestBlock(n, more, i);
        assert i < |addrs| ==> RequestBlock(n, addrs, i) == b;
      }
      if b in RequestBlocks(n, addrs) {
        var i: nat :| i < |addrs| && b == RequestBlock(n, addrs, i);
        assert RequestBlock(n, more, i) == b;
      }
    }
  }

  lemma SpotBefore(s: State, live0: set<Block>, live: set<Block>, o: nat, a: nat)
    requires o <= TOP && live0 <= live && Aligned(o, a) && InRange(s, o, Blk(o, a))
    requires forall x :: Blk(o, x) == Blk(o, a) ==> !LiveAt(live, x)
    ensures Spot(s, live0, o, a)
  {
    forall x | Blk(o, x) == Blk(o, a) ensures !LiveAt(live0, x) {
      assert !LiveAt(live, x);
    }
  }

  lemma PlacedNext(s: State, live0: set<Block>, live: set<Block>, n: nat, addrs: seq<nat>, a: nat, more: seq<nat>)
    requires Answered(s, live0, live, n, addrs) && |addrs| < Requests(n) && more == addrs + [a]
    requires Spot(s, live0, RequestOrder(n, |addrs|), a) && !LiveAt(live, a)
    ensures Placed(s, live0, n, more)
  {
    forall i, j | 0 <= i < j < |more| ensures TopsOf(more)[i] != TopsOf(more)[j] {
      if j == |addrs| {
        AnswerApart(s, live0, live, n, addrs, a, i);
      } else {
        assert TopsOf(addrs)[i] != TopsOf(addrs)[j];
      }
    }
    forall i | 0 <= i < |more| ensures Spot(s, live0, RequestOrder(n, i), more[i]) {
      if i < |addrs| {
        assert Spot(s, live0, RequestOrder(n, i), addrs[i]);
      }
    }
  }

  /** A fresh block for the next piece is one more answer. */
  lemma Answer(s: State, live0: set<Block>, live: set<Block>, n: nat, addrs: seq<nat>, a: nat, o: nat)
    requires Answered(s, live0, live, n, addrs) && |addrs| < Requests(n) && o == RequestOrder(n, |addrs|)
    requires Aligned(o, a) && InRange(s, o, Blk(o, a))
    requires forall x :: Blk(o, x) == Blk(o, a) ==> !LiveAt(live, x)
    ensures Answered(s, live0, live + {Block(o, Blk(o, a))}, n, addrs + [a])
  {
    var more, b := addrs + [a], Block(o, Blk(o, a));
    assert !LiveAt(live, a);
    assert Placed(s, live0, n, more) by {
      SpotBefore(s, live0, live, o, a);
      PlacedNext(s, live0, live, n, addrs, a, more);
    }
    assert RequestBlocks(n, more) == RequestBlocks(n, addrs) + {b} by {
      BlocksAdded(n, addrs, a, more);
    }
    assert b !in live;
  }

  // ---- no more room ----

  function Entries(xs: seq<nat>): set<nat> {
    set x | x in xs
  }

  lemma EntriesSplit(xs: seq<nat>, last: nat)
    requires xs != [] && last == |xs| - 1
    ensures Entries(xs) == Entries(xs[..last]) + {xs[last]}
  {
    assert xs == xs[..last] + [xs[last]];
  }

  lemma {:induction false} DistinctCount(xs: seq<nat>)
    requires Distinct(xs)
    ensures |Entries(xs)| == |xs|
  {
    if xs != [] {
      var last := |xs| - 1;
      DistinctCount(xs[..last]);
      EntriesSplit(xs, last);
      assert xs[last] !in Entries(xs[..last]);
    }
  }

  lemma {:induction false} EntryCount(xs: seq<nat>)
    ensures |Entries(xs)| <= |xs|
  {
    if xs != [] {
      EntryCount(xs[..|xs| - 1]);
      EntriesSplit(xs, |xs| - 1);
    }
  }

  lemma {:induction false} SubsetCount(a: set<nat>, b: set<nat>)
    requires a <= b
    ensures |a| <= |b|
  {
    if a != {} {
      var x :| x in a;
      SubsetCount(a - {x}, b - {x});
    }
  }

  /** Of more different entries than `ys` has, one is not in `ys`. */
  lemma Unused(xs: seq<nat>, ys: seq<nat>) returns (m: nat)
    requires Distinct(xs) && |xs| > |ys|
    ensures m < |xs| && xs[m] !in ys
  {
    if forall i :: 0 <= i < |xs| ==> xs[i] in ys {
      DistinctCount(xs);
      EntryCount(ys);
      SubsetCount(Entries(xs), Entries(ys));
      assert false;
    }
    m :| 0 <= m < |xs| && xs[m] !in ys;
  }

  /** A run without a live byte in a top block that no answer has taken has none now. */
  lemma StillFree(s: State, live0: set<Block>, live: set<Block>, n: nat, addrs: seq<nat>, o: nat, k: nat, a: nat)
    requires Answered(s, live0, live, n, addrs) && |addrs| < Requests(n) && o <= TOP && k == Blk(o, a)
    requires !HasLive(live0, o, k) && Blk(TOP, a) !in TopsOf(addrs)
    ensures !HasLive(live, o, k)
  {
    forall x | Blk(o, x) == k ensures !LiveAt(live, x) {
      SameBlkAbove(o, TOP, x, a);
      assert !LiveAt(live0, x);
      forall p | 0 <= p <= TOP ensures Block(p, Blk(p, x)) !in live {
        NotAnswered(n, addrs, p, x);
      }
    }
  }

  lemma NotAnswered(n: nat, addrs: seq<nat>, p: nat, x: nat)
    requires |addrs| < Requests(n) && Blk(TOP, x) !in TopsOf(addrs)
    ensures Block(p, Blk(p, x)) !in RequestBlocks(n, addrs)
  {
    forall j: nat | j < |addrs| ensures RequestBlock(n, addrs, j) != Block(p, Blk(p, x)) {
      FullOrder(n, j);
      assert TopsOf(addrs)[j] == Blk(TOP, addrs[j]);
    }
  }

  lemma LeftmostFree(s: State, live: set<Block>, o: nat, a: nat)
    requires o <= TOP && Spot(s, live, TOP, a)
    ensures InRange(s, o, Blk(o, a)) && !HasLive(live, o, Blk(o, a))
  {
    RangeBelow(s, a, TOP, o);
    forall x | Blk(o, x) == Blk(o, a) ensures !LiveAt(live, x) {
      SameBlkAbove(o, TOP, x, a);
    }
  }

  /** If the next piece finds no run without a live byte, there never was room for all pieces. */
  lemma NoRoom(s: State, live0: set<Block>, live: set<Block>, n: nat, addrs: seq<nat>, bs: seq<nat>)
    requires Answered(s, live0, live, n, addrs) && |addrs| < Requests(n)
    requires forall k :: InRange(s, RequestOrder(n, |addrs|), k) ==> HasLive(live, RequestOrder(n, |addrs|), k)
    ensures !(Placed(s, live0, n, bs) && |bs| == Requests(n))
  {
    if Placed(s, live0, n, bs) && |bs| == Requests(n) {
      var o := RequestOrder(n, |addrs|);
      var m := FreeTop(s, live0, n, bs, addrs);
      RoomAt(s, live0, n, bs, m, |addrs|);
      StillFree(s, live0, live, n, addrs, o, Blk(o, bs[m]), bs[m]);
    }
  }

  lemma NeverRoom(s: State, live0: set<Block>, live: set<Block>, n: nat, addrs: seq<nat>)
    requires Answered(s, live0, live, n, addrs) && |addrs| < Requests(n)
    requires forall k :: InRange(s, RequestOrder(n, |addrs|), k) ==> HasLive(live, RequestOrder(n, |addrs|), k)
    ensures NoPlace(s, live0, n)
  {
    forall bs | |bs| == Requests(n) ensures !Placed(s, live0, n, bs) {
      NoRoom(s, live0, live, n, addrs, bs);
    }
  }

  /** One of the first pieces of `bs` lies in a top block that no answer has taken. */
  lemma FreeTop(s: State, live: set<Block>, n: nat, bs: seq<nat>, addrs: seq<nat>) returns (m: nat)
    requires Placed(s, live, n, bs) && |addrs| < |bs|
    ensures m <= |addrs| && Blk(TOP, bs[m]) !in TopsOf(addrs)
  {
    var head := bs[..|addrs| + 1];
    assert forall i :: 0 <= i < |head| ==> TopsOf(head)[i] == TopsOf(bs)[i];
    m := Unused(TopsOf(head), TopsOf(addrs));
  }

  /** Where an earlier piece fits, every later one does. */
  lemma RoomAt(s: State, live: set<Block>, n: nat, bs: seq<nat>, m: nat, c: nat)
    requires Placed(s, live, n, bs) && m <= c < |bs|
    ensures var o := RequestOrder(n, c); InRange(s, o, Blk(o, bs[m])) && !HasLive(live, o, Blk(o, bs[m]))
  {
    assert Spot(s, live, RequestOrder(n, m), bs[m]);
    if m < c {
      FullOrder(n, m);
      LeftmostFree(s, live, RequestOrder(n, c), bs[m]);
    }
  }

  // ---- how much the pieces hold ----

  /** The frames asked for by the first `c` requests. */
  function Asked(n: nat, c: nat): nat
    requires c <= Requests(n)
  {
    if c == 0 then 0 else Asked(n, c - 1) + RequestSize(n, c - 1)
  }

  lemma {:induction false} AskedIs(n: nat, c: nat)
    requires c <= Requests(n)
    ensures Asked(n, c) == if c * MAX_BUDDY_NFRAMES <= n then c * MAX_BUDDY_NFRAMES else n
  {
    if c > 0 {
      AskedIs(n, c - 1);
    }
  }

  /** The requests ask for the whole count, each for 1 to 1024 frames and all but the last for 1024. */
  lemma RequestsAddUp(n: nat)
    ensures Asked(n, Requests(n)) == n
    ensures forall i: nat :: i < Requests(n) ==> 1 <= RequestSize(n, i) <= MAX_BUDDY_NFRAMES
    ensures forall i: nat :: i + 1 < Requests(n) ==> RequestSize(n, i) == MAX_BUDDY_NFRAMES
  {
    AskedIs(n, Requests(n));
  }

  ghost function Pick(bs: set<Block>): (b: Block)
    requires bs != {}
    ensures b in bs
  {
    var b :| b in bs;
    b
  }

  /** The frames that blocks hold, added up. */
  ghost function FramesIn(bs: set<Block>): nat {
    if bs == {} then 0 else var b := Pick(bs); Pow2(b.order) + FramesIn(bs - {b})
  }

  lemma {:induction false} FramesAdd(bs: set<Block>, b: Block)
    requires b !in bs
    ensures FramesIn(bs + {b}) == FramesIn(bs) + Pow2(b.order)
    decreases |bs|
  {
    var all := bs + {b};
    var p := Pick(all);
    if p == b {
      assert all - {b} == bs;
    } else {
      assert all - {p} == (bs - {p}) + {b};
      assert (bs - {p}) + {p} == bs;
      FramesAdd(bs - {p}, b);
      FramesAdd(bs - {p}, p);
    }
  }

  /** The frames that the blocks of the first `c` requests hold. */
  function Held(n: nat, c: nat): nat
    requires c <= Requests(n)
  {
    if c == 0 then 0 else Held(n, c - 1) + Pow2(RequestOrder(n, c - 1))
  }

  lemma {:induction false} BlocksHold(n: nat, addrs: seq<nat>)
    requires |addrs| <= Requests(n) && Distinct(TopsOf(addrs))
    ensures FramesIn(RequestBlocks(n, addrs)) == Held(n, |addrs|)
  {
    if addrs == [] {
      assert RequestBlocks(n, addrs) == {};
    } else {
      var last := |addrs| - 1;
      var before := addrs[..last];
      assert addrs == before + [addrs[last]];
      assert forall i :: 0 <= i < last ==> TopsOf(before)[i] == TopsOf(addrs)[i];
      BlocksHold(n, before);
      BlocksAdded(n, before, addrs[last], addrs);
      assert TopsOf(addrs)[last] !in TopsOf(before);
      NotAnswered(n, before, RequestOrder(n, last), addrs[last]);
      FramesAdd(RequestBlocks(n, before), RequestBlock(n, addrs, last));
    }
  }

  lemma {:induction false} FullHeld(n: nat, c: nat)
    requires c < Requests(n)
    ensures Held(n, c) == c * MAX_BUDDY_NFRAMES
  {
    if c > 0 {
      FullHeld(n, c - 1);
      FullOrder(n, c - 1);
      Pow2Top();
    }
  }

  /** `total` frames hold `n` in whole blocks of 1024 and, for the rest, the least power of two. */
  ghost predicate HoldsTightly(n: nat, total: nat) {
    var rest := n % MAX_BUDDY_NFRAMES;
    if rest == 0 then total == n
    else exists o: nat :: total == n - rest + Pow2(o) && rest <= Pow2(o) && (o > 0 ==> Pow2(o - 1) < rest)
  }

  lemma AllHeld(n: nat)
    ensures HoldsTightly(n, Held(n, Requests(n)))
  {
    if n > 0 {
      var c := Requests(n);
      LastRequest(n, c);
      var size := RequestSize(n, c - 1);
      HeldWithLast(n, c, size);
      TightOrder(n, size);
    }
  }

  lemma HeldWithLast(n: nat, c: nat, size: nat)
    requires 0 < c == Requests(n) && size == RequestSize(n, c - 1) && (c - 1) * MAX_BUDDY_NFRAMES + size == n
    ensures size <= n && Held(n, c) == n - size + Pow2(BuddyOrder(size))
  {
    FullHeld(n, c - 1);
  }

  lemma LastRequest(n: nat, c: nat)
    requires n > 0 && c == Requests(n)
    ensures c > 0
    ensures RequestSize(n, c - 1) == if n % MAX_BUDDY_NFRAMES == 0 then MAX_BUDDY_NFRAMES else n % MAX_BUDDY_NFRAMES
    ensures (c - 1) * MAX_BUDDY_NFRAMES + RequestSize(n, c - 1) == n
  {
  }

  lemma TightOrder(n: nat, size: nat)
    requires n > 0 && size == if n % MAX_BUDDY_NFRAMES == 0 then MAX_BUDDY_NFRAMES else n % MAX_BUDDY_NFRAMES
    ensures HoldsTightly(n, n - size + Pow2(BuddyOrder(size)))
  {
    OrderOfFull();
    BuddyOrderLeast(size);
  }

  /** The blocks handed out for a whole request hold it, with the least to spare. */
  lemma ServedTightly(s: State, live0: set<Block>, live: set<Block>, n: nat, addrs: seq<nat>)
    requires Answered(s, live0, live, n, addrs) && |addrs| == Requests(n)
    ensures HoldsTightly(n, FramesIn(live - live0)) && |live - live0| == |addrs|
  {
    forall b | b in RequestBlocks(n, addrs) ensures b !in live0 {
      var i: nat :| i < |addrs| && b == RequestBlock(n, addrs, i);
      var o := RequestOrder(n, i);
      assert Spot(s, live0, o, addrs[i]);
      assert !LiveAt(live0, addrs[i]);
    }
    assert live - live0 == RequestBlocks(n, addrs);
    BlocksHold(n, addrs);
    AllHeld(n);
    assert |live| == |live0| + |live - live0| by {
      assert live == live0 + (live - live0);
    }
  }
}
