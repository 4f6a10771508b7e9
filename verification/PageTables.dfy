/** Page directories and tables as values: 32-bit paging, two levels of 1024 entries.

    An entry is a number: the frame number times 4096 plus twelve flag bits.  Tables live in a
    heap keyed by their kernel pointers; 0 is the null pointer. */
module PageTables {
  import opened Basics

  const PT_SIZE: nat := 1024
  const TABLE_SPAN: nat := 0x40_0000
  const PRESENT: nat := 1
  const R_W: nat := 2
  const USER: nat := 4
  /** Bit numbers of the flags. */
  const PRESENT_BIT: nat := 0
  const R_W_BIT: nat := 1
  const USER_BIT: nat := 2
  const ACCESSED_BIT: nat := 5

  type Table = seq<nat>
  type Heap = map<nat, Table>

  /** `tables` are the directory's physical entries, `virt` the pointers to the same tables. */
  datatype Dir = Dir(tables: seq<nat>, virt: seq<nat>)

  predicate IsPresent(e: nat) {
    e % 2 == 1
  }

  predicate IsUser(e: nat) {
    e / 4 % 2 == 1
  }

  /** The entry of a user page or of a table of user pages. */
  predicate UserPresent(e: nat) {
    IsUser(e) && IsPresent(e)
  }

  function FrameNo(e: nat): nat {
    e / PAGE_SIZE
  }

  function Flags(e: nat): nat {
    e % PAGE_SIZE
  }

  function ClearPresent(e: nat): nat {
    Unset(e, PRESENT_BIT)
  }

  function ClearAccessed(e: nat): nat {
    Unset(e, ACCESSED_BIT)
  }

  /** The flags are the bits they stand for. */
  lemma FlagBits(e: nat)
    ensures PRESENT == Two(PRESENT_BIT) && R_W == Two(R_W_BIT) && USER == Two(USER_BIT)
    ensures IsPresent(e) <==> Bit(e, PRESENT_BIT)
    ensures IsUser(e) <==> Bit(e, USER_BIT)
  {
    assert e / 4 == e / 2 / 2;
    assert Bit(e, 2) == Bit(e / 2, 1) && Bit(e / 2, 1) == Bit(e / 2 / 2, 0);
  }

  /** `e` is `e0` without its accessed flag and with `flags`. */
  ghost predicate FlagsAdded(e0: nat, flags: nat, e: nat) {
    forall j: nat :: Bit(e, j) <==> (Bit(e0, j) && j != ACCESSED_BIT) || Bit(flags, j)
  }

  lemma AddsFlags(e0: nat, flags: nat)
    ensures FlagsAdded(e0, flags, Or(ClearAccessed(e0), flags))
  {
    forall j: nat ensures Bit(Or(ClearAccessed(e0), flags), j) <==> (Bit(e0, j) && j != ACCESSED_BIT) || Bit(flags, j) {
      OrBit(ClearAccessed(e0), flags, j);
      UnsetBit(e0, ACCESSED_BIT, j);
    }
  }

  /** What a directory entry becomes when its table is asked for with `flags`: a present entry keeps
      its frame and gains the flags, another one names the table `t` and has just the flags. */
  ghost predicate SlotEntry(phys: nat -> nat, e0: nat, e: nat, t: nat, flags: nat) {
    if IsPresent(e0) then FrameNo(e) == FrameNo(e0) && FlagsAdded(e0, flags, e)
    else FrameNo(e) * PAGE_SIZE == phys(t) && Flags(e) == flags
  }

  /** `e` is `e0` without its present bit and with every other bit as it was. */
  predicate LostPresent(e0: nat, e: nat) {
    !IsPresent(e) && e / 2 == e0 / 2
  }

  lemma PresentCleared(e: nat)
    ensures LostPresent(e, ClearPresent(e))
    ensures FrameNo(ClearPresent(e)) == FrameNo(e) && (IsUser(ClearPresent(e)) <==> IsUser(e))
  {
    FrameUnset(e, PRESENT_BIT, 12);
    FlagBits(e);
    FlagBits(ClearPresent(e));
    UnsetBit(e, PRESENT_BIT, USER_BIT);
  }

  function Pde(va: nat): nat {
    va / TABLE_SPAN
  }

  function Pte(va: nat): nat {
    va / PAGE_SIZE % PT_SIZE
  }

  function VirtAddr(pde: nat, pte: nat): nat {
    pde * TABLE_SPAN + pte * PAGE_SIZE
  }

  lemma SplitAddr(va: nat)
    ensures va == VirtAddr(Pde(va), Pte(va)) + va % PAGE_SIZE
    ensures Pte(va) < PT_SIZE
  {
  }

  lemma JoinAddr(pde: nat, pte: nat, off: nat)
    requires pte < PT_SIZE && off < PAGE_SIZE
    ensures Pde(VirtAddr(pde, pte) + off) == pde && Pte(VirtAddr(pde, pte) + off) == pte
    ensures (VirtAddr(pde, pte) + off) % PAGE_SIZE == off
  {
    var page := pde * PT_SIZE + pte;
    var va := VirtAddr(pde, pte) + off;
    assert va == page * PAGE_SIZE + off;
    assert va / PAGE_SIZE == page && va % PAGE_SIZE == off;
    assert page % PT_SIZE == pte && page / PT_SIZE == pde;
    assert va / TABLE_SPAN == va / PAGE_SIZE / PT_SIZE;
  }

  /** Tables are whole and reached through one directory slot each. */
  predicate Walkable(h: Heap, d: Dir) {
    && |d.tables| == PT_SIZE && |d.virt| == PT_SIZE && 0 !in h
    && (forall i :: 0 <= i < PT_SIZE && d.virt[i] != 0 ==> d.virt[i] in h && |h[d.virt[i]]| == PT_SIZE)
    && (forall i, j :: 0 <= i < j < PT_SIZE && d.virt[i] != 0 ==> d.virt[i] != d.virt[j])
  }

  /** There is a table exactly where the directory entry is present. */
  predicate Marked(d: Dir)
    requires |d.tables| == PT_SIZE && |d.virt| == PT_SIZE
  {
    forall i :: 0 <= i < PT_SIZE ==> (IsPresent(d.tables[i]) <==> d.virt[i] != 0)
  }

  /** Every present directory entry names the frame of the table that its pointer reaches; `phys`
      gives the physical address of a kernel pointer. */
  ghost predicate Linked(phys: nat -> nat, d: Dir)
    requires |d.tables| == PT_SIZE && |d.virt| == PT_SIZE
  {
    forall i :: 0 <= i < PT_SIZE && IsPresent(d.tables[i]) ==> FrameNo(d.tables[i]) * PAGE_SIZE == phys(d.virt[i])
  }

  predicate DirOk(h: Heap, d: Dir) {
    Walkable(h, d) && Marked(d)
  }

  predicate Mapped(d: Dir, va: nat) {
    Pde(va) < |d.virt| && d.virt[Pde(va)] != 0
  }

  /** The entry of the page holding `va`. */
  function EntryOf(h: Heap, d: Dir, va: nat): nat
    requires Walkable(h, d) && Mapped(d, va)
  {
    h[d.virt[Pde(va)]][Pte(va)]
  }

  /** The software walk.  It ignores the present bit of the page entry. */
  function ToPhys(h: Heap, d: Dir, va: nat): nat
    requires Walkable(h, d)
  {
    if Mapped(d, va) then FrameNo(EntryOf(h, d, va)) * PAGE_SIZE + va % PAGE_SIZE else 0
  }

  /** `t` with the entries from `pte` on replaced. */
  function Splice(t: Table, pte: nat, es: seq<nat>): (r: Table)
    requires pte + |es| <= |t|
    ensures |r| == |t|
    ensures forall i :: 0 <= i < |t| ==> r[i] == if pte <= i < pte + |es| then es[i - pte] else t[i]
  {
    t[..pte] + es + t[pte + |es|..]
  }

  function SetEntry(t: Table, k: nat, e: nat): (r: Table)
    requires k < |t|
    ensures |r| == |t|
  {
    t[k := e]
  }

  /** The directory entry's own table holds page `va`. */
  predicate InTable(pde: nat, pte: nat, n: nat, va: nat) {
    Pde(va) == pde && pte <= Pte(va) < pte + n
  }

  /** Writing entries into one table changes the entries of exactly the pages they belong to. */
  lemma WalkAfterSplice(h: Heap, d: Dir, pde: nat, pte: nat, es: seq<nat>, va: nat)
    requires Walkable(h, d) && pde < PT_SIZE && d.virt[pde] != 0 && pte + |es| <= PT_SIZE
    ensures var t := d.virt[pde];
            var h' := h[t := Splice(h[t], pte, es)];
            && Walkable(h', d)
            && (Mapped(d, va) ==>
                  EntryOf(h', d, va) ==
                    if InTable(pde, pte, |es|, va) then es[Pte(va) - pte] else EntryOf(h, d, va))
  {
    var t := d.virt[pde];
    if Mapped(d, va) && Pde(va) != pde {
      assert d.virt[Pde(va)] != t;
    }
  }

  /** Pages `v`, `v + 4096`, ... of one table are the entries from `Pte(v)` on. */
  lemma PagesOfRun(v: nat, n: nat, i: nat, off: nat)
    requires v % PAGE_SIZE == 0 && Pte(v) + n <= PT_SIZE && i < n && off < PAGE_SIZE
    ensures InTable(Pde(v), Pte(v), n, v + i * PAGE_SIZE + off)
    ensures Pte(v + i * PAGE_SIZE + off) == Pte(v) + i
    ensures (v + i * PAGE_SIZE + off) % PAGE_SIZE == off
  {
    SplitAddr(v);
    JoinAddr(Pde(v), Pte(v) + i, off);
  }

  lemma RunOfPages(v: nat, n: nat, va: nat)
    requires v % PAGE_SIZE == 0 && Pte(v) + n <= PT_SIZE
    ensures InTable(Pde(v), Pte(v), n, va) <==> v <= va < v + n * PAGE_SIZE
  {
    SplitAddr(v);
    SplitAddr(va);
  }

  lemma {:induction false} OrPresent(a: nat, b: nat)
    ensures IsPresent(Or(a, b)) <==> IsPresent(a) || IsPresent(b)
  {
  }

  lemma OrHalves(a: nat, b: nat)
    ensures Or(a, b) / 2 == Or(a / 2, b / 2)
  {
  }

  lemma Quarter(e: nat)
    ensures IsUser(e) <==> IsPresent(e / 2 / 2)
  {
  }

  lemma PageHasNoFlags(phys: nat)
    requires phys % PAGE_SIZE == 0
    ensures !IsPresent(phys) && !IsUser(phys)
  {
    var k := phys / PAGE_SIZE;
    Even(2048 * k);
    Even(512 * k);
    assert phys == 2 * (2048 * k) && phys / 4 == 2 * (512 * k);
  }

  lemma Even(x: nat)
    ensures 2 * x % 2 == 0
  {
  }

  lemma OrUser(a: nat, b: nat)
    ensures IsUser(Or(a, b)) <==> IsUser(a) || IsUser(b)
  {
    Quarter(a);
    Quarter(b);
    Quarter(Or(a, b));
    OrHalves(a, b);
    OrHalves(a / 2, b / 2);
    OrPresent(a / 2 / 2, b / 2 / 2);
  }

  /** Clearing the accessed flag leaves every other bit. */
  lemma AccessedKeepsFlags(e: nat)
    ensures IsPresent(ClearAccessed(e)) == IsPresent(e)
    ensures IsUser(ClearAccessed(e)) == IsUser(e)
  {
    FlagBits(e);
    FlagBits(ClearAccessed(e));
    UnsetBit(e, ACCESSED_BIT, PRESENT_BIT);
    UnsetBit(e, ACCESSED_BIT, USER_BIT);
  }

  // ---- the frame of an entry ----

  /** `e` without its lowest `k` bits. */
  function Shift(e: nat, k: nat): nat {
    if k == 0 then e else Shift(e / 2, k - 1)
  }

  lemma {:induction false} ShiftIsQuotient(e: nat, k: nat)
    ensures Shift(e, k) == e / Two(k)
    decreases k
  {
    if k > 0 {
      ShiftIsQuotient(e / 2, k - 1);
      HalfQuotient(e, Two(k - 1));
    }
  }

  lemma {:induction false} ShiftOr(a: nat, b: nat, k: nat)
    ensures Shift(Or(a, b), k) == Or(Shift(a, k), Shift(b, k))
    decreases k
  {
    if k > 0 {
      OrHalves(a, b);
      ShiftOr(a / 2, b / 2, k - 1);
    }
  }

  lemma {:induction false} ShiftUnset(e: nat, j: nat, k: nat)
    requires j < k
    ensures Shift(Unset(e, j), k) == Shift(e, k)
    decreases k
  {
    if j > 0 {
      ShiftUnset(e / 2, j - 1, k - 1);
    }
  }

  lemma FrameIsShift(e: nat, k: nat)
    requires k == 12
    ensures FrameNo(e) == Shift(e, k)
  {
    assert Two(6) == 64;
    assert Two(12) == 64 * Two(6);
    ShiftIsQuotient(e, k);
  }

  /** Or-ing flags into an entry keeps its frame. */
  lemma FrameOr(e: nat, flags: nat, k: nat)
    requires flags < PAGE_SIZE && k == 12
    ensures FrameNo(Or(e, flags)) == FrameNo(e)
  {
    assert Shift(Or(e, flags), k) == Shift(e, k) by {
      FrameIsShift(flags, k);
      ShiftOr(e, flags, k);
      OrZero(Shift(e, k));
    }
    assert FrameNo(e) == Shift(e, k) by { FrameIsShift(e, k); }
    assert FrameNo(Or(e, flags)) == Shift(Or(e, flags), k) by { FrameIsShift(Or(e, flags), k); }
  }

  /** So does clearing a flag. */
  lemma FrameUnset(e: nat, j: nat, k: nat)
    requires j < k == 12
    ensures FrameNo(Unset(e, j)) == FrameNo(e)
  {
    FrameIsShift(e, k);
    FrameIsShift(Unset(e, j), k);
    ShiftUnset(e, j, k);
  }

  lemma HalfQuotient(x: nat, m: nat)
    requires m > 0
    ensures 2 * m > 0 && x / (2 * m) == x / 2 / m
  {
    var q := x / 2 / m;
    assert x / 2 == q * m + x / 2 % m;
    assert x == q * (2 * m) + (2 * (x / 2 % m) + x % 2);
    QuotientIs(x, 2 * m, q, 2 * (x / 2 % m) + x % 2);
  }

  lemma QuotientIs(x: nat, d: nat, q: nat, r: nat)
    requires d > 0 && x == q * d + r && r < d
    ensures x / d == q
  {
    var p := x / d;
    assert x == p * d + x % d;
    assert p < q ==> (p + 1) * d <= q * d;
    assert p > q ==> (q + 1) * d <= p * d;
  }
}
