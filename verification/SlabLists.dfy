/** The doubly linked slab lists of a cache, link by link.

    A cache has three list heads; every slab is linked into one of the lists. */
module SlabLists {
  import opened Basics

  datatype Node = FreeHead | PartialHead | FullHead | Slab(addr: nat)

  datatype Links = Links(next: map<Node, Option<Node>>, prev: map<Node, Node>)

  function Nth(xs: seq<nat>, i: nat): Option<Node> {
    if i < |xs| then Some(Slab(xs[i])) else None
  }

  function Before(head: Node, xs: seq<nat>, i: nat): Node
    requires i <= |xs|
  {
    if i == 0 then head else Slab(xs[i - 1])
  }

  predicate Disjoint(xs: seq<nat>, ys: seq<nat>) {
    forall y :: y in ys ==> y !in xs
  }

  /** Both links of the `i`-th slab. */
  predicate LinkedAt(l: Links, head: Node, xs: seq<nat>, i: nat)
    requires i < |xs|
  {
    && Slab(xs[i]) in l.next && l.next[Slab(xs[i])] == Nth(xs, i + 1)
    && Slab(xs[i]) in l.prev && l.prev[Slab(xs[i])] == Before(head, xs, i)
  }

  /** The links from `head` on run through exactly the slabs `xs`, forward and backward. */
  predicate IsList(l: Links, head: Node, xs: seq<nat>) {
    && !head.Slab? && Distinct(xs)
    && head in l.next && l.next[head] == Nth(xs, 0)
    && (forall i :: 0 <= i < |xs| ==> LinkedAt(l, head, xs, i))
  }

  function InsertLinks(l: Links, head: Node, s: nat): Links
    requires head in l.next
  {
    var first := l.next[head];
    var prev := l.prev[Slab(s) := head];
    Links(l.next[head := Some(Slab(s))][Slab(s) := first],
          if first.Some? then prev[first.value := Slab(s)] else prev)
  }

  function RemoveLinks(l: Links, s: nat): Links
    requires Slab(s) in l.next && Slab(s) in l.prev
  {
    var after, before := l.next[Slab(s)], l.prev[Slab(s)];
    Links(l.next[before := after],
          if after.Some? then l.prev[after.value := before] else l.prev)
  }

  lemma InsertList(l: Links, head: Node, xs: seq<nat>, s: nat)
    requires IsList(l, head, xs) && s !in xs
    ensures IsList(InsertLinks(l, head, s), head, [s] + xs)
  {
    var ys, m := [s] + xs, InsertLinks(l, head, s);
    forall i | 0 <= i < |ys| ensures LinkedAt(m, head, ys, i) {
      if i > 0 {
        assert LinkedAt(l, head, xs, i - 1);
        assert ys[i] == xs[i - 1] && ys[i] != s;
        assert i > 1 ==> xs[i - 1] != xs[0];
      }
    }
  }

  lemma InsertOther(l: Links, head: Node, xs: seq<nat>, s: nat, head2: Node, ys: seq<nat>)
    requires IsList(l, head, xs) && IsList(l, head2, ys) && head != head2 && s !in ys
    requires Disjoint(xs, ys)
    ensures IsList(InsertLinks(l, head, s), head2, ys)
  {
    var m := InsertLinks(l, head, s);
    forall i | 0 <= i < |ys| ensures LinkedAt(m, head2, ys, i) {
      assert LinkedAt(l, head2, ys, i);
      assert ys[i] in ys && ys[i] != s;
      assert xs != [] ==> ys[i] != xs[0];
    }
  }

  lemma WithoutAt(xs: seq<nat>, k: nat, i: nat)
    requires Distinct(xs) && k < |xs| && i < |xs| - 1
    ensures |Without(xs, k)| == |xs| - 1
    ensures Without(xs, k)[i] == xs[if i < k then i else i + 1]
    ensures Distinct(Without(xs, k)) && xs[k] !in Without(xs, k)
  {
  }

  lemma RemovedAt(l: Links, head: Node, xs: seq<nat>, k: nat, i: nat)
    requires IsList(l, head, xs) && k < |xs| && i < |xs| - 1
    ensures Slab(xs[k]) in l.next && Slab(xs[k]) in l.prev && |Without(xs, k)| == |xs| - 1
    ensures LinkedAt(RemoveLinks(l, xs[k]), head, Without(xs, k), i)
  {
    var j := if i < k then i else i + 1;
    assert LinkedAt(l, head, xs, k);
    assert LinkedAt(l, head, xs, j);
    WithoutAt(xs, k, i);
    if i > 0 {
      WithoutAt(xs, k, i - 1);
    }
    if i + 1 < |xs| - 1 {
      WithoutAt(xs, k, i + 1);
    }
    assert xs[j] != xs[k];
    assert k > 0 && j != k - 1 ==> xs[j] != xs[k - 1];
    assert k + 1 < |xs| && j != k + 1 ==> xs[j] != xs[k + 1];
  }

  lemma RemoveList(l: Links, head: Node, xs: seq<nat>, k: nat)
    requires IsList(l, head, xs) && k < |xs|
    ensures Slab(xs[k]) in l.next && Slab(xs[k]) in l.prev
    ensures IsList(RemoveLinks(l, xs[k]), head, Without(xs, k))
    ensures xs[k] !in Without(xs, k)
  {
    assert LinkedAt(l, head, xs, k);
    var ys, m := Without(xs, k), RemoveLinks(l, xs[k]);
    forall i | 0 <= i < |ys| ensures LinkedAt(m, head, ys, i) {
      RemovedAt(l, head, xs, k, i);
    }
    if |xs| > 1 {
      WithoutAt(xs, k, 0);
    }
  }

  lemma RemoveOther(l: Links, head: Node, xs: seq<nat>, k: nat, head2: Node, ys: seq<nat>)
    requires IsList(l, head, xs) && k < |xs| && IsList(l, head2, ys) && head != head2
    requires Disjoint(xs, ys)
    ensures Slab(xs[k]) in l.next && Slab(xs[k]) in l.prev
    ensures IsList(RemoveLinks(l, xs[k]), head2, ys)
  {
    assert LinkedAt(l, head, xs, k);
    var m := RemoveLinks(l, xs[k]);
    forall i | 0 <= i < |ys| ensures LinkedAt(m, head2, ys, i) {
      assert LinkedAt(l, head2, ys, i);
      assert ys[i] in ys;
      assert k > 0 ==> ys[i] != xs[k - 1];
      assert k + 1 < |xs| ==> ys[i] != xs[k + 1];
    }
  }

  /** Inserting after a head puts the slab first in that list and keeps every other list. */
  lemma InsertKeepsLists(l: Links, head: Node, s: nat, m: Links)
    requires head in l.next && m == InsertLinks(l, head, s)
    ensures forall xs :: IsList(l, head, xs) && s !in xs ==> IsList(m, head, [s] + xs)
    ensures forall xs, other, ys ::
              IsList(l, head, xs) && IsList(l, other, ys) && other != head && s !in ys && Disjoint(xs, ys)
              ==> IsList(m, other, ys)
  {
    forall xs | IsList(l, head, xs) && s !in xs ensures IsList(m, head, [s] + xs) {
      InsertList(l, head, xs, s);
    }
    forall xs, other, ys |
      IsList(l, head, xs) && IsList(l, other, ys) && other != head && s !in ys && Disjoint(xs, ys)
      ensures IsList(m, other, ys)
    {
      InsertOther(l, head, xs, s, other, ys);
    }
  }

  /** Removing a slab takes exactly it out of its list and keeps every other list. */
  lemma RemoveKeepsLists(l: Links, s: nat, m: Links)
    requires Slab(s) in l.next && Slab(s) in l.prev && m == RemoveLinks(l, s)
    ensures forall head, xs, k: nat ::
              IsList(l, head, xs) && k < |xs| && xs[k] == s ==> IsList(m, head, Without(xs, k))
    ensures forall head, xs, other, ys ::
              IsList(l, head, xs) && s in xs && IsList(l, other, ys) && other != head && Disjoint(xs, ys)
              ==> IsList(m, other, ys)
  {
    forall head, xs, k: nat | IsList(l, head, xs) && k < |xs| && xs[k] == s
      ensures IsList(m, head, Without(xs, k))
    {
      RemoveList(l, head, xs, k);
    }
    forall head, xs, other, ys |
      IsList(l, head, xs) && s in xs && IsList(l, other, ys) && other != head && Disjoint(xs, ys)
      ensures IsList(m, other, ys)
    {
      var k :| 0 <= k < |xs| && xs[k] == s;
      RemoveOther(l, head, xs, k, other, ys);
    }
  }
}
