/** Where a block's bit lives: 32-bit words, one bitmap per order. */
module BuddyMaps {
  import opened BuddyBlocks

  datatype FrameMapAddr = FrameMapAddr(frameMap: nat, frame: nat)

  function Div(a: nat, d: nat): nat
    requires d > 0
  {
    a / d
  }

  function Mod(a: nat, d: nat): nat
    requires d > 0
  {
    a % d
  }

  /** Bytes covered by one 32-bit word of the order's bitmap. */
  function WordSpan(o: nat): (r: nat)
    ensures r > 0
  {
    MAP_SIZE * Size(o)
  }

  /** The source subtracts the word's start from the address: the remainder modulo its span. */
  function AddrToMapId(o: nat, a: nat): FrameMapAddr {
    FrameMapAddr(Div(a, WordSpan(o)), Div(Mod(a, WordSpan(o)), Size(o)))
  }

  function MapToAddr(o: nat, m: FrameMapAddr): nat {
    m.frameMap * WordSpan(o) + m.frame * Size(o)
  }

  function BitNo(m: FrameMapAddr): nat {
    m.frameMap * MAP_SIZE + m.frame
  }

  function BuddyFrame(m: FrameMapAddr): FrameMapAddr {
    if m.frame % 2 == 1 then m.(frame := m.frame - 1) else m.(frame := m.frame + 1)
  }

  /** The word and bit of an address are the quotient and remainder of its block number. */
  lemma MapIdIsBlk(o: nat, a: nat)
    ensures var m := AddrToMapId(o, a);
            m == FrameMapAddr(Blk(o, a) / MAP_SIZE, Blk(o, a) % MAP_SIZE)
    ensures BitNo(AddrToMapId(o, a)) == Blk(o, a)
  {
    BlkIsQuotient(o, a);
    SplitQuotient(a, Size(o), MAP_SIZE);
  }

  lemma SplitQuotient(a: nat, d: nat, m: nat)
    requires d > 0 && m > 0
    ensures m * d > 0
    ensures Div(a, m * d) == Div(a, d) / m
    ensures Div(Mod(a, m * d), d) == Div(a, d) % m
  {
    var k := Div(a, d);
    var w, j := k / m, k % m;
    Regroup(a, d, m, k, w, j);
    TopDigit(a, d, m, w, j, Mod(a, d));
  }

  lemma TopDigit(a: nat, d: nat, m: nat, w: nat, j: nat, r: nat)
    requires 0 <= r < d && j < m && a == w * (m * d) + j * d + r
    ensures m * d > 0
    ensures Div(a, m * d) == w
    ensures Div(Mod(a, m * d), d) == j
  {
    assert (j + 1) * d <= m * d;
    var e := m * d;
    QuotientBetween(a, e, w);
    ModFromDiv(a, e, w);
    QuotientBetween(Mod(a, e), d, j);
  }

  lemma ModFromDiv(a: nat, e: nat, w: nat)
    requires e > 0 && a / e == w
    ensures Mod(a, e) == a - w * e
  {
  }

  lemma Regroup(a: nat, d: nat, m: nat, k: nat, w: nat, j: nat)
    requires d > 0 && k == Div(a, d) && m > 0 && k == w * m + j
    ensures a == w * (m * d) + j * d + Mod(a, d)
  {
    assert a == k * d + a % d;
    assert (w * m + j) * d == w * m * d + j * d;
    assert w * m * d == w * (m * d);
  }

  /** The buddy of an address is its sibling block, and the address computed from its map
      position is that block's base. */
  lemma BuddyIsSibling(o: nat, a: nat)
    ensures var b := BuddyFrame(AddrToMapId(o, a));
            BitNo(b) == Sibling(Blk(o, a)) && MapToAddr(o, b) == Base(o, Sibling(Blk(o, a)))
  {
    MapIdIsBlk(o, a);
    var b := BuddyFrame(AddrToMapId(o, a));
    BaseIsMultiple(o, BitNo(b));
    WordAndBit(b.frameMap, b.frame, Size(o));
    SiblingOfDigits(Blk(o, a));
  }

  lemma SiblingOfDigits(k: nat)
    ensures BitNo(BuddyFrame(FrameMapAddr(k / MAP_SIZE, k % MAP_SIZE))) == Sibling(k)
  {
  }

  lemma WordAndBit(w: nat, j: nat, d: nat)
    ensures (w * MAP_SIZE + j) * d == w * (MAP_SIZE * d) + j * d
  {
  }
}
