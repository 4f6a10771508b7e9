/** Directory listings over the table of an archive: `initrd_readdir` steps from an entry to the
    next by the entry's child count, which is right only where no child has children itself. */
module TarListing {
  import opened Basics
  import opened TarParse

  /** A node of the mounted tree: base name, kind, size, and number of direct children, zero where
      the parser left it unset. */
  datatype FsNode = FsNode(name: string, isDir: bool, size: nat, sub: nat)

  // ---- tables of forests ----

  function Size(t: Tree): (n: nat)
    ensures n >= 1
    decreases t, 0
  {
    1 + match t case File(_, _, _) => 0 case Dir(_, _, kids) => SizeAll(kids)
  }

  function SizeAll(f: seq<Tree>): (n: nat)
    ensures n >= |f|
    decreases f
  {
    if f == [] then 0 else Size(f[0]) + SizeAll(f[1..])
  }

  function NodeAt(t: Tree): FsNode {
    FsNode(t.name, t.Dir?, if t.Dir? then 0 else t.size, |Kids(t)|)
  }

  /** The nodes of a forest in pre-order. */
  function FsTree(t: Tree): (r: seq<FsNode>)
    ensures |r| == Size(t)
    decreases t, 0
  {
    [NodeAt(t)] + match t case File(_, _, _) => [] case Dir(_, _, kids) => FsForest(kids)
  }

  function FsForest(f: seq<Tree>): (r: seq<FsNode>)
    ensures |r| == SizeAll(f)
    decreases f
  {
    if f == [] then [] else FsTree(f[0]) + FsForest(f[1..])
  }

  /** The table of a whole archive: the root and its forest. */
  function Table(f: seq<Tree>): (tab: seq<FsNode>)
    ensures |tab| == 1 + SizeAll(f)
  {
    [FsNode("/", true, 0, |f|)] + FsForest(f)
  }

  /** The nodes of `f` stand in `tab` from `p` on. */
  predicate At(tab: seq<FsNode>, p: nat, f: seq<Tree>)
    decreases f
  {
    if f == [] then p <= |tab| else AtTree(tab, p, f[0]) && At(tab, p + Size(f[0]), f[1..])
  }

  predicate AtTree(tab: seq<FsNode>, p: nat, t: Tree)
    decreases t, 0
  {
    && p < |tab| && tab[p] == NodeAt(t)
    && match t case File(_, _, _) => true case Dir(_, _, kids) => At(tab, p + 1, kids)
  }

  /** Where the top nodes of a forest stand, if its table starts at `p`. */
  function Tops(f: seq<Tree>, p: nat): (r: seq<nat>)
    ensures |r| == |f|
    decreases f
  {
    if f == [] then [] else [p] + Tops(f[1..], p + Size(f[0]))
  }

  lemma {:induction false} AtEnds(tab: seq<FsNode>, p: nat, f: seq<Tree>)
    requires At(tab, p, f)
    ensures p + SizeAll(f) <= |tab|
    decreases f
  {
    if f != [] {
      AtEnds(tab, p + Size(f[0]), f[1..]);
    }
  }

  lemma {:induction false} SliceIsAt(tab: seq<FsNode>, p: nat, e: nat, f: seq<Tree>)
    requires p <= e <= |tab| && tab[p..e] == FsForest(f)
    ensures At(tab, p, f)
    decreases f
  {
    if f != [] {
      var a := FsTree(f[0]);
      SliceSplit(tab, p, e, a, FsForest(f[1..]));
      SliceIsAtTree(tab, p, p + |a|, f[0]);
      SliceIsAt(tab, p + |a|, e, f[1..]);
    }
  }

  lemma {:induction false} SliceIsAtTree(tab: seq<FsNode>, p: nat, e: nat, t: Tree)
    requires p <= e <= |tab| && tab[p..e] == FsTree(t)
    ensures AtTree(tab, p, t)
    decreases t, 0
  {
    assert |tab[p..e]| == e - p >= 1;
    assert tab[p] == tab[p..e][0];
    if t.Dir? {
      assert tab[p + 1..e] == tab[p..e][1..] == FsForest(t.kids);
      SliceIsAt(tab, p + 1, e, t.kids);
    }
  }

  lemma TableIsAt(f: seq<Tree>)
    ensures At(Table(f), 1, f)
  {
    assert Table(f)[1..|Table(f)|] == FsForest(f);
    SliceIsAt(Table(f), 1, |Table(f)|, f);
  }

  // ---- the walk ----

  /** The positions that repeated `initrd_readdir` calls return, when the next one is `p`. */
  function Walk(tab: seq<FsNode>, p: nat): seq<nat>
    decreases |tab| - p
  {
    if p >= |tab| then [] else [p] + Walk(tab, p + tab[p].sub + 1)
  }

  /** The walk from `q` comes to `e` exactly. */
  predicate Lands(tab: seq<FsNode>, q: nat, e: nat)
    requires e <= |tab|
    decreases |tab| - q
  {
    if q >= e then q == e else Lands(tab, q + tab[q].sub + 1, e)
  }

  lemma {:induction false} LandsTrans(tab: seq<FsNode>, q: nat, mid: nat, e: nat)
    requires mid <= e <= |tab| && Lands(tab, q, mid) && Lands(tab, mid, e)
    ensures Lands(tab, q, e)
    decreases |tab| - q
  {
    if q < mid {
      LandsTrans(tab, q + tab[q].sub + 1, mid, e);
    }
  }

  /** A step never leaves the subtree it starts in otherwise than by its end, so a walk that starts
      anywhere in the table of a forest comes to its end. */
  lemma {:induction false} WalkLands(tab: seq<FsNode>, p: nat, f: seq<Tree>, q: nat, e: nat)
    requires At(tab, p, f) && e == p + SizeAll(f) <= |tab| && p <= q <= e
    ensures Lands(tab, q, e)
    decreases f, 1
  {
    if f != [] {
      var mid := p + Size(f[0]);
      if q < mid {
        WalkLandsTree(tab, p, f[0], q, mid);
        WalkLands(tab, mid, f[1..], mid, e);
        LandsTrans(tab, q, mid, e);
      } else {
        WalkLands(tab, mid, f[1..], q, e);
      }
    }
  }

  lemma {:induction false} WalkLandsTree(tab: seq<FsNode>, p: nat, t: Tree, q: nat, mid: nat)
    requires AtTree(tab, p, t) && mid == p + Size(t) <= |tab| && p <= q < mid
    ensures Lands(tab, q, mid)
    decreases t, 0
  {
    if t.Dir? {
      WalkLands(tab, p + 1, t.kids, if q == p then p + 1 + |t.kids| else q, mid);
    }
  }

  lemma {:induction false} LandsListed(tab: seq<FsNode>, q: nat, e: nat)
    requires e < |tab| && Lands(tab, q, e)
    ensures e in Walk(tab, q)
    decreases |tab| - q
  {
    if q < e {
      LandsListed(tab, q + tab[q].sub + 1, e);
    }
  }

  lemma {:induction false} WalkIncreases(tab: seq<FsNode>, p: nat)
    ensures forall i :: 0 <= i < |Walk(tab, p)| ==> p <= Walk(tab, p)[i] < |tab|
    ensures forall i, j :: 0 <= i < j < |Walk(tab, p)| ==> Walk(tab, p)[i] < Walk(tab, p)[j]
    decreases |tab| - p
  {
    if p < |tab| {
      WalkIncreases(tab, p + tab[p].sub + 1);
    }
  }

  lemma {:induction false} TopAt(tab: seq<FsNode>, p: nat, f: seq<Tree>, i: nat)
    requires At(tab, p, f) && i < |f|
    ensures p <= Tops(f, p)[i] && AtTree(tab, Tops(f, p)[i], f[i])
    decreases f
  {
    if i > 0 {
      TopAt(tab, p + Size(f[0]), f[1..], i - 1);
    }
  }

  lemma {:induction false} LandsOnTop(tab: seq<FsNode>, p: nat, f: seq<Tree>, i: nat, top: nat)
    requires At(tab, p, f) && i < |f| && top == Tops(f, p)[i] < |tab|
    ensures Lands(tab, p, top)
    decreases f
  {
    if i > 0 {
      var mid := p + Size(f[0]);
      TopAt(tab, mid, f[1..], i - 1);
      LandsOnTop(tab, mid, f[1..], i - 1, top);
      WalkLandsTree(tab, p, f[0], p, mid);
      LandsTrans(tab, p, mid, top);
    }
  }

  /** Whatever the shape of the archive, a listing that starts at a forest's first node shows each
      of the forest's top nodes, once and in order. */
  lemma ListsEveryTop(tab: seq<FsNode>, p: nat, f: seq<Tree>)
    requires At(tab, p, f)
    ensures forall i :: 0 <= i < |f| ==> Tops(f, p)[i] in Walk(tab, p)
    ensures forall i, j :: 0 <= i < j < |Walk(tab, p)| ==> Walk(tab, p)[i] < Walk(tab, p)[j]
    ensures forall i, j :: 0 <= i < j < |f| ==> Tops(f, p)[i] < Tops(f, p)[j]
  {
    WalkIncreases(tab, p);
    TopsIncrease(f, p);
    forall i | 0 <= i < |f| ensures Tops(f, p)[i] in Walk(tab, p) {
      TopAt(tab, p, f, i);
      LandsOnTop(tab, p, f, i, Tops(f, p)[i]);
      LandsListed(tab, p, Tops(f, p)[i]);
    }
  }

  // ---- when it shows nothing else ----

  /** No child of `t` has children. */
  predicate Shallow(t: Tree) {
    forall i :: 0 <= i < |Kids(t)| ==> Kids(Kids(t)[i]) == []
  }

  predicate AllShallow(f: seq<Tree>) {
    forall i :: 0 <= i < |f| ==> Shallow(f[i])
  }

  lemma {:induction false} SizeOfLeaves(f: seq<Tree>)
    ensures SizeAll(f) == |f| <==> forall i :: 0 <= i < |f| ==> Kids(f[i]) == []
  {
    if f != [] {
      SizeOfLeaves(f[1..]);
      assert Size(f[0]) == 1 + SizeAll(Kids(f[0]));
      assert (forall i :: 0 <= i < |f| ==> Kids(f[i]) == []) <==>
             Kids(f[0]) == [] && (forall i :: 0 <= i < |f[1..]| ==> Kids(f[1..][i]) == []) by {
        assert forall i :: 0 < i < |f| ==> f[i] == f[1..][i - 1];
      }
    }
  }

  lemma JumpIsSize(t: Tree)
    ensures Size(t) == 1 + |Kids(t)| <==> Shallow(t)
  {
    SizeOfLeaves(Kids(t));
  }

  lemma AllShallowSplit(f: seq<Tree>)
    requires f != []
    ensures AllShallow(f) <==> Shallow(f[0]) && AllShallow(f[1..])
  {
    assert forall i :: 0 < i < |f| ==> f[i] == f[1..][i - 1];
  }

  /** A listing over a forest shows its top nodes and then goes on after the forest, with nothing
      in between, exactly if no top node has grandchildren. */
  lemma {:induction false} ListsOnlyTopsIff(tab: seq<FsNode>, p: nat, f: seq<Tree>, e: nat, listed: seq<nat>)
    requires At(tab, p, f) && e == p + SizeAll(f) && listed == Tops(f, p) + Walk(tab, e)
    ensures Walk(tab, p) == listed <==> AllShallow(f)
    decreases f
  {
    if f == [] {
      assert listed == Walk(tab, p);
    } else {
      var rest, mid, next := f[1..], p + Size(f[0]), p + |Kids(f[0])| + 1;
      var after := Tops(rest, mid) + Walk(tab, e);
      AtEnds(tab, mid, rest);
      ListsOnlyTopsIff(tab, mid, rest, e, after);
      ListsOnlyStep(tab, p, f, mid, next, e, after);
      TopsCons(f, p, mid, Walk(tab, e));
      ConsIff(p, Walk(tab, next), after, Walk(tab, p), listed);
    }
  }

  lemma ListsOnlyStep(tab: seq<FsNode>, p: nat, f: seq<Tree>, mid: nat, next: nat, e: nat, listed: seq<nat>)
    requires f != [] && mid == p + Size(f[0]) <= |tab| && next == p + |Kids(f[0])| + 1
    requires e == mid + SizeAll(f[1..]) && listed == Tops(f[1..], mid) + Walk(tab, e)
    requires Walk(tab, mid) == listed <==> AllShallow(f[1..])
    ensures Walk(tab, next) == listed <==> AllShallow(f)
  {
    AllShallowSplit(f);
    JumpIsSize(f[0]);
    if next != mid {
      HeadAfterTree(tab, mid, f[1..], e);
      assert next < mid && Walk(tab, next)[0] == next;
    }
  }

  lemma TopsCons(f: seq<Tree>, p: nat, mid: nat, after: seq<nat>)
    requires f != [] && mid == p + Size(f[0])
    ensures Tops(f, p) + after == [p] + (Tops(f[1..], mid) + after)
  {
    Assoc([p], Tops(f[1..], mid), after);
  }

  lemma ConsIff(p: nat, a: seq<nat>, b: seq<nat>, pa: seq<nat>, pb: seq<nat>)
    requires pa == [p] + a && pb == [p] + b
    ensures pa == pb <==> a == b
  {
    assert pa[1..] == a && pb[1..] == b;
  }

  lemma HeadAfterTree(tab: seq<FsNode>, mid: nat, f: seq<Tree>, e: nat)
    requires e == mid + SizeAll(f)
    ensures var listed := Tops(f, mid) + Walk(tab, e); |listed| > 0 ==> listed[0] == mid
  {
  }

  /** Listing the root shows exactly the top-level entries if and only if none of them has
      grandchildren. */
  lemma RootListingIff(f: seq<Tree>)
    ensures Walk(Table(f), 1) == Tops(f, 1) <==> AllShallow(f)
  {
    var tab := Table(f);
    TableIsAt(f);
    ListsOnlyTopsIff(tab, 1, f, |tab|, Tops(f, 1) + Walk(tab, |tab|));
    assert Tops(f, 1) + Walk(tab, |tab|) == Tops(f, 1);
  }

  /** A listing of another directory does not stop at the directory's end: it shows exactly the
      children if and only if the directory ends the table and no child has grandchildren. */
  lemma DirListingIff(tab: seq<FsNode>, x: nat, kids: seq<Tree>)
    requires At(tab, x + 1, kids)
    ensures Walk(tab, x + 1) == Tops(kids, x + 1) <==> AllShallow(kids) && x + 1 + SizeAll(kids) == |tab|
  {
    var e := x + 1 + SizeAll(kids);
    AtEnds(tab, x + 1, kids);
    ListsOnlyTopsIff(tab, x + 1, kids, e, Tops(kids, x + 1) + Walk(tab, e));
    if Walk(tab, x + 1) == Tops(kids, x + 1) {
      if e < |tab| {
        WalkLands(tab, x + 1, kids, x + 1, e);
        LandsListed(tab, x + 1, e);
        TopsIncrease(kids, x + 1);
        assert false;
      }
      assert Tops(kids, x + 1) + Walk(tab, e) == Tops(kids, x + 1);
    } else if e == |tab| {
      assert Tops(kids, x + 1) + Walk(tab, e) == Tops(kids, x + 1);
    }
  }

  lemma {:induction false} TopsIncrease(f: seq<Tree>, p: nat)
    ensures forall k :: k in Tops(f, p) ==> p <= k < p + SizeAll(f)
    ensures forall i, j :: 0 <= i < j < |f| ==> Tops(f, p)[i] < Tops(f, p)[j]
    decreases f
  {
    if f != [] {
      var rest := Tops(f[1..], p + Size(f[0]));
      TopsIncrease(f[1..], p + Size(f[0]));
      assert Tops(f, p) == [p] + rest;
      assert forall j :: 0 <= j < |rest| ==> rest[j] in rest;
    }
  }

  // ---- reading a directory ----

  /** An open directory. */
  class DirHandle {
    const inode: nat
    var offset: nat

    ghost function Rest(tab: seq<FsNode>): seq<nat>
      reads this
    {
      Walk(tab, inode + offset)
    }

    constructor (inode: nat)
      ensures this.inode == inode && offset == 1
    {
      this.inode, offset := inode, 1;
    }

    method ReadDir(tab: seq<FsNode>) returns (ent: Option<nat>)
      requires inode < |tab|
      modifies this
      ensures old(Rest(tab)) == [] ==> ent == None && Rest(tab) == []
      ensures old(Rest(tab)) != [] ==> ent == Some(old(Rest(tab))[0]) && Rest(tab) == old(Rest(tab))[1..]
    {
      if offset > |tab| - inode - 1 {
        return None;
      }
      var e := inode + offset;
      offset := offset + tab[e].sub + 1;
      return Some(e);
    }
  }
}
