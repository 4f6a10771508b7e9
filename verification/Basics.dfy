/** What the components share. */
module Basics {

  datatype Option<T> = None | Some(value: T)

  const PAGE_SIZE: nat := 4096

  /** A slice that is a concatenation falls into its two parts. */
  lemma SliceSplit<T>(s: seq<T>, lo: nat, hi: nat, a: seq<T>, b: seq<T>)
    requires lo <= hi <= |s| && s[lo..hi] == a + b
    ensures lo + |a| <= hi && s[lo..lo + |a|] == a && s[lo + |a|..hi] == b
  {
    assert |s[lo..hi]| == hi - lo == |a| + |b|;
    assert s[lo..lo + |a|] == s[lo..hi][..|a|];
    assert s[lo + |a|..hi] == s[lo..hi][|a|..];
  }

  lemma Assoc<T>(a: seq<T>, b: seq<T>, c: seq<T>)
    ensures a + b + c == a + (b + c)
  {
  }

  // ---- lists without repetitions ----

  predicate Distinct(xs: seq<nat>) {
    forall i, j :: 0 <= i < j < |xs| ==> xs[i] != xs[j]
  }

  function Without(xs: seq<nat>, k: nat): seq<nat>
    requires k < |xs|
  {
    xs[..k] + xs[k + 1..]
  }

  /** Taking out one entry takes out exactly its value. */
  lemma WithoutMembers(xs: seq<nat>, k: nat)
    requires Distinct(xs) && k < |xs|
    ensures Distinct(Without(xs, k))
    ensures forall x :: x in Without(xs, k) <==> x in xs && x != xs[k]
  {
    var ys := Without(xs, k);
    forall x | x in xs && x != xs[k] ensures x in ys {
      var j :| 0 <= j < |xs| && xs[j] == x;
      assert ys[if j < k then j else j - 1] == x;
    }
  }

  // ---- bits ----

  function Two(k: nat): (r: nat)
    ensures r >= 1
  {
    if k == 0 then 1 else 2 * Two(k - 1)
  }

  /** Bit `k` of a number. */
  predicate Bit(e: nat, k: nat) {
    if k == 0 then e % 2 == 1 else Bit(e / 2, k - 1)
  }

  /** Bitwise or. */
  function Or(a: nat, b: nat): nat
    decreases a
  {
    if a == 0 then b
    else 2 * Or(a / 2, b / 2) + (if a % 2 == 1 || b % 2 == 1 then 1 else 0)
  }

  lemma {:induction false} OrBit(a: nat, b: nat, k: nat)
    ensures Bit(Or(a, b), k) <==> Bit(a, k) || Bit(b, k)
    decreases k
  {
    if a == 0 {
      ZeroBit(k);
    } else if k > 0 {
      OrBit(a / 2, b / 2, k - 1);
    }
  }

  lemma {:induction false} ZeroBit(k: nat)
    ensures !Bit(0, k)
  {
    if k > 0 {
      ZeroBit(k - 1);
    }
  }

  /** `e` with bit `k` cleared. */
  function Unset(e: nat, k: nat): nat {
    if k == 0 then e - e % 2 else 2 * Unset(e / 2, k - 1) + e % 2
  }

  lemma {:induction false} UnsetBit(e: nat, k: nat, j: nat)
    ensures Bit(Unset(e, k), j) <==> Bit(e, j) && j != k
    decreases k
  {
    if k > 0 && j > 0 {
      UnsetBit(e / 2, k - 1, j - 1);
    }
  }

  lemma {:induction false} OrZero(a: nat)
    ensures Or(a, 0) == a
  {
    if a > 0 {
      OrZero(a / 2);
    }
  }

  lemma {:induction false} OrBelow(q: nat, b: nat, k: nat)
    requires b < Two(k)
    ensures Or(q * Two(k), b) == q * Two(k) + b
  {
    if k == 0 {
      OrZero(q);
    } else {
      var half := q * Two(k - 1);
      assert q * Two(k) == 2 * half;
      OrBelow(q, b / 2, k - 1);
    }
  }

  /** Flags below the page size and a page address have no bit in common. */
  lemma OrIsSum(a: nat, b: nat)
    requires a % PAGE_SIZE == 0 && b < PAGE_SIZE
    ensures Or(a, b) == a + b
  {
    assert Two(6) == 64;
    assert Two(12) == 64 * Two(6);
    OrBelow(a / PAGE_SIZE, b, 12);
  }
}
