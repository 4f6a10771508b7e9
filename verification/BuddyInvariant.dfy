/** What every buddy state means, and the four steps every operation is made of.

    The blocks form a binary tree under each top block.  A block is free (listed), live (handed
    out), split (its bit is set though it is not live), or absent (some block above it is not
    split).  `Valid` says this locally, node by node. */
module BuddyInvariant {
  import opened Basics
  import opened BuddyBlocks
  import opened BuddySpec

  datatype Block = Block(order: nat, num: nat)

  predicate InRange(s: State, o: nat, k: nat)
    requires o <= TOP
    decreases TOP - o
  {
    if o == TOP then s.first <= k < s.first + s.tops else InRange(s, o + 1, k / 2)
  }

  predicate IsFree(s: State, o: nat, k: nat)
    requires Shape(s) && o <= TOP
  {
    Base(o, k) in s.lists[o]
  }

  predicate IsSplit(s: State, live: set<Block>, o: nat, k: nat)
    requires Shape(s) && o <= TOP
  {
    k in s.bits[o] && Block(o, k) !in live
  }

  predicate InTree(s: State, o: nat, k: nat)
    requires Shape(s) && o <= TOP
  {
    IsFree(s, o, k) || k in s.bits[o]
  }

  /** The tree's local rule at block `k` of order `o`. */
  predicate NodeOk(s: State, live: set<Block>, o: nat, k: nat)
    requires Shape(s) && o <= TOP
  {
    && (IsFree(s, o, k) ==> k !in s.bits[o])
    && (o == 0 ==> !IsSplit(s, live, o, k))
    && (if o == TOP then InTree(s, o, k)
        else
          && (InTree(s, o, k) <==> IsSplit(s, live, o + 1, k / 2))
          && !(IsFree(s, o, k) && IsFree(s, o, Sibling(k))))
  }

  /** A free list: aligned managed blocks, none twice, as many as the counter says. */
  predicate ListOk(s: State, o: nat)
    requires Shape(s) && o <= TOP
  {
    && s.numFree[o] == |s.lists[o]|
    && (forall i :: 0 <= i < |s.lists[o]| ==>
          Aligned(o, s.lists[o][i]) && InRange(s, o, Blk(o, s.lists[o][i])))
    && Distinct(s.lists[o])
  }

  predicate Listed(s: State)
    requires Shape(s)
  {
    forall o :: 0 <= o <= TOP ==> ListOk(s, o)
  }

  predicate BitsInRange(s: State)
    requires Shape(s)
  {
    forall o, k :: 0 <= o <= TOP && k in s.bits[o] ==> InRange(s, o, k)
  }

  predicate LiveMarked(s: State, live: set<Block>)
    requires Shape(s)
  {
    forall b :: b in live ==> b.order <= TOP && b.num in s.bits[b.order]
  }

  ghost predicate Tree(s: State, live: set<Block>)
    requires Shape(s)
  {
    forall o: nat, k: nat :: o <= TOP && InRange(s, o, k) ==> NodeOk(s, live, o, k)
  }

  ghost predicate Valid(s: State, live: set<Block>) {
    && Shape(s)
    && Listed(s)
    && BitsInRange(s)
    && LiveMarked(s, live)
    && Tree(s, live)
  }

  // ---- the four steps ----

  /** Block `(o, k)` leaves the head of its free list and becomes live. */
  function Take(s: State, o: nat): (r: State)
    requires Shape(s) && o <= TOP
    ensures Shape(r)
  {
    SetBit(RemoveHead(s, o), o, if s.lists[o] == [] then 0 else Blk(o, s.lists[o][0]))
  }

  /** Live block `(o, k)` splits: its left half is live, its right half listed. */
  function Split(s: State, o: nat, k: nat): (r: State)
    requires Shape(s) && 0 < o <= TOP
    ensures Shape(r)
  {
    SetBit(Insert(s, o - 1, Base(o - 1, 2 * k + 1)), o - 1, 2 * k)
  }

  /** Live block `(o, k)` and its free sibling become one live block. */
  function Merge(s: State, o: nat, k: nat): (r: State)
    requires Shape(s) && o < TOP
    ensures Shape(r)
  {
    RemoveFrame(ClearBit(s, o, k), o, Base(o, Sibling(k)))
  }

  /** Live block `(o, k)` is listed. */
  function Put(s: State, o: nat, k: nat): (r: State)
    requires Shape(s) && o <= TOP
    ensures Shape(r)
  {
    Insert(ClearBit(s, o, k), o, Base(o, k))
  }

  // ---- lemmas about ranges and lists ----

  lemma {:induction false} RangeIgnoresRest(s: State, t: State, o: nat, k: nat)
    requires o <= TOP && s.first == t.first && s.tops == t.tops
    ensures InRange(s, o, k) == InRange(t, o, k)
    decreases TOP - o
  {
    if o < TOP {
      RangeIgnoresRest(s, t, o + 1, k / 2);
    }
  }

  lemma RangesAgree(s: State, t: State)
    requires s.first == t.first && s.tops == t.tops
    ensures forall o: nat, k: nat :: o <= TOP ==> InRange(s, o, k) == InRange(t, o, k)
  {
    forall o: nat, k: nat | o <= TOP ensures InRange(s, o, k) == InRange(t, o, k) {
      RangeIgnoresRest(s, t, o, k);
    }
  }

  lemma BaseOfListed(s: State, o: nat, k: nat)
    requires Shape(s) && o <= TOP && ListOk(s, o) && IsFree(s, o, k)
    ensures InRange(s, o, k)
  {
    BlkOfBase(o, k);
  }

  /** The search finds the entry of a listed block. */
  lemma FindsListed(s: State, o: nat, k: nat)
    requires Shape(s) && o <= TOP && ListOk(s, o) && IsFree(s, o, k)
    ensures var i := FindCovering(s.lists[o], o, Base(o, k));
            i < |s.lists[o]| && s.lists[o][i] == Base(o, k)
  {
    var list := s.lists[o];
    var i := FindCovering(list, o, Base(o, k));
    var j :| 0 <= j < |list| && list[j] == Base(o, k);
    assert i <= j;
    BlkOfBase(o, k);
    InBlock(o, Blk(o, list[i]), Base(o, k));
  }

  // ---- what the two list updates do to the free blocks ----

  lemma NodeAt(s: State, live: set<Block>, o: nat, k: nat)
    requires Valid(s, live) && o <= TOP && InRange(s, o, k)
    ensures NodeOk(s, live, o, k)
  {
  }

  lemma InsertFree(s: State, o: nat, k: nat, p: nat, j: nat)
    requires Shape(s) && o <= TOP && p <= TOP
    ensures IsFree(Insert(s, o, Base(o, k)), p, j) <==> IsFree(s, p, j) || (p == o && j == k)
  {
    if p == o && Base(o, j) == Base(o, k) {
      BaseInjective(o, j, k);
    }
  }

  lemma InsertListed(s: State, o: nat, k: nat)
    requires Shape(s) && o <= TOP && Listed(s) && InRange(s, o, k) && !IsFree(s, o, k)
    ensures Listed(Insert(s, o, Base(o, k)))
  {
    var t := Insert(s, o, Base(o, k));
    RangesAgree(s, t);
    BlkOfBase(o, k);
    forall p | 0 <= p <= TOP ensures ListOk(t, p) {
      assert ListOk(s, p);
      if p == o {
        assert forall i :: 0 < i < |t.lists[o]| ==> t.lists[o][i] == s.lists[o][i - 1];
      }
    }
  }

  /** The state with entry `i` taken out of the free list of order `o`. */
  function Unlist(s: State, o: nat, i: nat): (t: State)
    requires Shape(s) && o <= TOP && i < |s.lists[o]| && s.numFree[o] > 0
    ensures Shape(t)
  {
    s.(lists := s.lists[o := Without(s.lists[o], i)], numFree := s.numFree[o := s.numFree[o] - 1])
  }

  lemma UnlistFree(s: State, o: nat, i: nat, k: nat, p: nat, j: nat)
    requires Shape(s) && o <= TOP && p <= TOP && ListOk(s, o)
    requires i < |s.lists[o]| && s.lists[o][i] == Base(o, k)
    ensures IsFree(Unlist(s, o, i), p, j) <==> IsFree(s, p, j) && !(p == o && j == k)
  {
    WithoutMembers(s.lists[o], i);
    if p == o && Base(o, j) == Base(o, k) {
      BaseInjective(o, j, k);
    }
  }

  lemma UnlistListed(s: State, o: nat, i: nat)
    requires Shape(s) && o <= TOP && Listed(s) && i < |s.lists[o]|
    ensures ListOk(s, o)
    ensures Listed(Unlist(s, o, i))
  {
    assert ListOk(s, o);
    var t := Unlist(s, o, i);
    RangesAgree(s, t);
    WithoutMembers(s.lists[o], i);
    forall p | 0 <= p <= TOP ensures ListOk(t, p) {
      assert ListOk(s, p);
      if p == o {
        forall q | 0 <= q < |t.lists[o]|
          ensures Aligned(o, t.lists[o][q]) && InRange(t, o, Blk(o, t.lists[o][q]))
        {
          assert t.lists[o][q] == s.lists[o][if q < i then q else q + 1];
        }
      }
    }
  }

  /** The list and counter clauses do not look at the bitmaps. */
  lemma ListedIgnoresBits(s: State, t: State)
    requires Shape(s) && Shape(t) && s.(bits := t.bits) == t && Listed(s)
    ensures Listed(t)
  {
    RangesAgree(s, t);
    forall p | 0 <= p <= TOP ensures ListOk(t, p) {
      assert ListOk(s, p);
    }
  }

  /** The free blocks of `t` are those of `s` and block `(o, k)`. */
  ghost predicate OneMoreFree(s: State, t: State, o: nat, k: nat)
    requires Shape(s) && Shape(t)
  {
    forall p: nat, j: nat :: p <= TOP ==> (IsFree(t, p, j) <==> IsFree(s, p, j) || (p == o && j == k))
  }

  /** The free blocks of `t` are those of `s` except block `(o, k)`. */
  ghost predicate OneLessFree(s: State, t: State, o: nat, k: nat)
    requires Shape(s) && Shape(t)
  {
    forall p: nat, j: nat :: p <= TOP ==> (IsFree(t, p, j) <==> IsFree(s, p, j) && !(p == o && j == k))
  }

  /** Listing an aligned address frees exactly its block. */
  lemma InsertMeans(s: State, o: nat, a: nat)
    requires Shape(s) && o <= TOP && Aligned(o, a)
    ensures OneMoreFree(s, Insert(s, o, a), o, Blk(o, a))
    ensures Listed(s) && InRange(s, o, Blk(o, a)) && !IsFree(s, o, Blk(o, a)) ==> Listed(Insert(s, o, a))
  {
    forall p: nat, j: nat | p <= TOP
      ensures IsFree(Insert(s, o, a), p, j) <==> IsFree(s, p, j) || (p == o && j == Blk(o, a))
    {
      InsertFree(s, o, Blk(o, a), p, j);
    }
    if Listed(s) && InRange(s, o, Blk(o, a)) && !IsFree(s, o, Blk(o, a)) {
      InsertListed(s, o, Blk(o, a));
    }
  }

  /** Taking the head off a proper list makes exactly its block unfree; an empty list stays. */
  lemma RemoveHeadMeans(s: State, o: nat)
    requires Shape(s) && o <= TOP && Listed(s)
    ensures Listed(RemoveHead(s, o))
    ensures s.lists[o] == [] ==> RemoveHead(s, o) == s
    ensures s.lists[o] != [] ==> OneLessFree(s, RemoveHead(s, o), o, Blk(o, s.lists[o][0]))
  {
    assert ListOk(s, o);
    if s.lists[o] != [] {
      var k := Blk(o, s.lists[o][0]);
      assert Without(s.lists[o], 0) == s.lists[o][1..];
      UnlistListed(s, o, 0);
      forall p: nat, j: nat | p <= TOP
        ensures IsFree(RemoveHead(s, o), p, j) <==> IsFree(s, p, j) && !(p == o && j == k)
      {
        UnlistFree(s, o, 0, k, p, j);
      }
    }
  }

  // ---- the four steps keep the invariant ----

  lemma TakeIs(s: State, o: nat, k: nat)
    requires Shape(s) && o <= TOP && ListOk(s, o) && s.lists[o] != [] && s.lists[o][0] == Base(o, k)
    ensures Take(s, o) == SetBit(Unlist(s, o, 0), o, k)
  {
    BlkOfBase(o, k);
    assert Without(s.lists[o], 0) == s.lists[o][1..];
  }

  lemma TakeNode(s: State, live: set<Block>, o: nat, k: nat, p: nat, j: nat)
    requires Shape(s) && o <= TOP && p <= TOP && ListOk(s, o)
    requires s.lists[o] != [] && s.lists[o][0] == Base(o, k)
    requires NodeOk(s, live, o, k) && NodeOk(s, live, p, j)
    ensures NodeOk(Take(s, o), live + {Block(o, k)}, p, j)
  {
    TakeIs(s, o, k);
    UnlistFree(s, o, 0, k, p, j);
    UnlistFree(s, o, 0, k, p, Sibling(j));
    assert IsFree(s, o, k);
  }

  lemma HeadNode(s: State, live: set<Block>, o: nat, k: nat)
    requires Valid(s, live) && o <= TOP && s.lists[o] != [] && s.lists[o][0] == Base(o, k)
    ensures ListOk(s, o) && InRange(s, o, k) && NodeOk(s, live, o, k) && Block(o, k) !in live
  {
    assert ListOk(s, o);
    assert IsFree(s, o, k);
    BaseOfListed(s, o, k);
    NodeAt(s, live, o, k);
  }

  lemma TakeTree(s: State, live: set<Block>, o: nat, k: nat)
    requires Valid(s, live) && o <= TOP && s.lists[o] != [] && s.lists[o][0] == Base(o, k)
    ensures Tree(Take(s, o), live + {Block(o, k)})
  {
    var t := Take(s, o);
    HeadNode(s, live, o, k);
    RangesAgree(s, t);
    forall p: nat, j: nat | p <= TOP && InRange(t, p, j)
      ensures NodeOk(t, live + {Block(o, k)}, p, j)
    {
      NodeAt(s, live, p, j);
      TakeNode(s, live, o, k, p, j);
    }
  }

  lemma TakeValid(s: State, live: set<Block>, o: nat, k: nat)
    requires Valid(s, live) && o <= TOP && s.lists[o] != [] && s.lists[o][0] == Base(o, k)
    ensures Valid(Take(s, o), live + {Block(o, k)})
    ensures Block(o, k) !in live && InRange(s, o, k)
  {
    var t := Take(s, o);
    HeadNode(s, live, o, k);
    TakeIs(s, o, k);
    assert Listed(t) by {
      UnlistListed(s, o, 0);
      ListedIgnoresBits(Unlist(s, o, 0), t);
    }
    RangesAgree(s, t);
    TakeTree(s, live, o, k);
  }

  lemma PutNode(s: State, live: set<Block>, o: nat, k: nat, p: nat, j: nat)
    requires Shape(s) && Block(o, k) in live && o <= TOP && p <= TOP && k in s.bits[o]
    requires o == TOP || !IsFree(s, o, Sibling(k))
    requires NodeOk(s, live, o, k) && NodeOk(s, live, p, j)
    ensures NodeOk(Put(s, o, k), live - {Block(o, k)}, p, j)
  {
    var c := ClearBit(s, o, k);
    InsertFree(c, o, k, p, j);
    InsertFree(c, o, k, p, Sibling(j));
    assert Sibling(Sibling(j)) == j;
  }

  lemma PutValid(s: State, live: set<Block>, o: nat, k: nat)
    requires Valid(s, live) && Block(o, k) in live && o <= TOP
    requires o == TOP || !IsFree(s, o, Sibling(k))
    ensures Valid(Put(s, o, k), live - {Block(o, k)})
  {
    var t := Put(s, o, k);
    var c := ClearBit(s, o, k);
    ListedIgnoresBits(s, c);
    RangesAgree(s, c);
    NodeAt(s, live, o, k);
    InsertListed(c, o, k);
    RangesAgree(s, t);
    forall p: nat, j: nat | p <= TOP && InRange(t, p, j)
      ensures NodeOk(t, live - {Block(o, k)}, p, j)
    {
      NodeAt(s, live, p, j);
      PutNode(s, live, o, k, p, j);
    }
  }

  lemma SplitNode(s: State, live: set<Block>, o: nat, k: nat, p: nat, j: nat)
    requires Shape(s) && Block(o, k) in live && 0 < o <= TOP && p <= TOP
    requires k in s.bits[o]
    requires NodeOk(s, live, o - 1, 2 * k) && NodeOk(s, live, o - 1, 2 * k + 1)
    requires NodeOk(s, live, p, j)
    ensures NodeOk(Split(s, o, k), live - {Block(o, k)} + {Block(o - 1, 2 * k)}, p, j)
  {
    InsertFree(s, o - 1, 2 * k + 1, p, j);
    InsertFree(s, o - 1, 2 * k + 1, p, Sibling(j));
  }

  /** The halves of a live block are absent. */
  lemma HalfAbsent(s: State, live: set<Block>, o: nat, k: nat, j: nat)
    requires Valid(s, live) && Block(o, k) in live && 0 < o <= TOP && j / 2 == k
    ensures InRange(s, o, k) && k in s.bits[o] && NodeOk(s, live, o, k)
    ensures InRange(s, o - 1, j) && NodeOk(s, live, o - 1, j) && !InTree(s, o - 1, j)
  {
    assert InRange(s, o, k);
    NodeAt(s, live, o - 1, j);
    NodeAt(s, live, o, k);
  }

  lemma SplitTree(s: State, live: set<Block>, o: nat, k: nat)
    requires Valid(s, live) && Block(o, k) in live && 0 < o <= TOP
    ensures Tree(Split(s, o, k), live - {Block(o, k)} + {Block(o - 1, 2 * k)})
  {
    var t := Split(s, o, k);
    HalfAbsent(s, live, o, k, 2 * k);
    HalfAbsent(s, live, o, k, 2 * k + 1);
    RangesAgree(s, t);
    forall p: nat, j: nat | p <= TOP && InRange(t, p, j)
      ensures NodeOk(t, live - {Block(o, k)} + {Block(o - 1, 2 * k)}, p, j)
    {
      NodeAt(s, live, p, j);
      SplitNode(s, live, o, k, p, j);
    }
  }

  lemma SplitListed(s: State, live: set<Block>, o: nat, k: nat)
    requires Valid(s, live) && Block(o, k) in live && 0 < o <= TOP
    ensures Listed(Split(s, o, k))
  {
    var u := Insert(s, o - 1, Base(o - 1, 2 * k + 1));
    assert Listed(u) by {
      HalfAbsent(s, live, o, k, 2 * k + 1);
      InsertListed(s, o - 1, 2 * k + 1);
    }
    BitListed(u, o - 1, 2 * k);
  }

  lemma BitListed(s: State, o: nat, k: nat)
    requires Shape(s) && o <= TOP && Listed(s)
    ensures Listed(SetBit(s, o, k))
  {
    ListedIgnoresBits(s, SetBit(s, o, k));
  }

  lemma SplitMarks(s: State, live: set<Block>, o: nat, k: nat)
    requires Valid(s, live) && Block(o, k) in live && 0 < o <= TOP
    ensures BitsInRange(Split(s, o, k))
    ensures LiveMarked(Split(s, o, k), live - {Block(o, k)} + {Block(o - 1, 2 * k)})
  {
    var t := Split(s, o, k);
    HalfAbsent(s, live, o, k, 2 * k);
    RangesAgree(s, t);
    forall p, j | 0 <= p <= TOP && j in t.bits[p] ensures InRange(t, p, j) {
      assert (p == o - 1 && j == 2 * k) || j in s.bits[p];
    }
  }

  lemma SplitValid(s: State, live: set<Block>, o: nat, k: nat)
    requires Valid(s, live) && Block(o, k) in live && 0 < o <= TOP
    ensures Valid(Split(s, o, k), live - {Block(o, k)} + {Block(o - 1, 2 * k)})
  {
    SplitListed(s, live, o, k);
    SplitMarks(s, live, o, k);
    SplitTree(s, live, o, k);
  }

  lemma MergeIs(s: State, o: nat, k: nat) returns (i: nat)
    requires Shape(s) && o < TOP && ListOk(s, o) && IsFree(s, o, Sibling(k))
    ensures i < |s.lists[o]| && s.lists[o][i] == Base(o, Sibling(k))
    ensures Merge(s, o, k) == ClearBit(Unlist(s, o, i), o, k)
  {
    FindsListed(s, o, Sibling(k));
    i := FindCovering(s.lists[o], o, Base(o, Sibling(k)));
  }

  lemma MergeNode(s: State, live: set<Block>, o: nat, k: nat, p: nat, j: nat)
    requires Shape(s) && Block(o, k) in live && o < TOP && IsFree(s, o, Sibling(k)) && p <= TOP
    requires ListOk(s, o) && k in s.bits[o]
    requires NodeOk(s, live, o, k) && NodeOk(s, live, o, Sibling(k)) && NodeOk(s, live, p, j)
    requires NodeOk(s, live, o + 1, k / 2)
    ensures NodeOk(Merge(s, o, k), live - {Block(o, k)} + {Block(o + 1, k / 2)}, p, j)
  {
    var i := MergeIs(s, o, k);
    UnlistFree(s, o, i, Sibling(k), p, j);
    UnlistFree(s, o, i, Sibling(k), p, Sibling(j));
    if j / 2 == k / 2 {
      SameParent(j, k);
    }
  }

  lemma SameParent(j: nat, k: nat)
    requires j / 2 == k / 2
    ensures j == k || j == Sibling(k)
  {
  }

  lemma MergeTree(s: State, live: set<Block>, o: nat, k: nat)
    requires Valid(s, live) && Block(o, k) in live && o < TOP && IsFree(s, o, Sibling(k))
    ensures Tree(Merge(s, o, k), live - {Block(o, k)} + {Block(o + 1, k / 2)})
  {
    var t := Merge(s, o, k);
    var live' := live - {Block(o, k)} + {Block(o + 1, k / 2)};
    assert ListOk(s, o);
    var i := MergeIs(s, o, k);
    RangesAgree(s, t);
    NodeAt(s, live, o, k);
    BaseOfListed(s, o, Sibling(k));
    NodeAt(s, live, o, Sibling(k));
    NodeAt(s, live, o + 1, k / 2);
    forall p: nat, j: nat | p <= TOP && InRange(t, p, j)
      ensures NodeOk(t, live', p, j)
    {
      NodeAt(s, live, p, j);
      MergeNode(s, live, o, k, p, j);
    }
  }

  lemma MergeValid(s: State, live: set<Block>, o: nat, k: nat)
    requires Valid(s, live) && Block(o, k) in live && o < TOP && IsFree(s, o, Sibling(k))
    ensures Valid(Merge(s, o, k), live - {Block(o, k)} + {Block(o + 1, k / 2)})
  {
    var t := Merge(s, o, k);
    assert ListOk(s, o);
    var i := MergeIs(s, o, k);
    assert Listed(t) by {
      UnlistListed(s, o, i);
      ListedIgnoresBits(Unlist(s, o, i), t);
    }
    RangesAgree(s, t);
    NodeAt(s, live, o, k);
    MergeTree(s, live, o, k);
  }
}
