/** Looking up an absolute path: its components are matched one after the other against directory
    listings, each by the first listed entry whose name begins with the component. */
module TarPaths {
  import opened Basics
  import opened TarParse
  import opened TarListing
  import opened TarLookup

  // ---- components ----

  /** The length of a path's first component, its slash included. */
  function PieceLen(path: string): (n: nat)
    ensures n <= |path| && (path != "" ==> n > 0)
  {
    if path == "" then 0 else if path[0] == '/' then 1 else 1 + PieceLen(path[1..])
  }

  method ParseFileDirName(path: string) returns (len: nat)
    ensures len == PieceLen(path)
  {
    len := 0;
    while len < |path|
      invariant len <= |path| && PieceLen(path) == len + PieceLen(path[len..])
    {
      assert path[len..][1..] == path[len + 1..];
      if path[len] == '/' {
        len := len + 1;
        return;
      }
      len := len + 1;
    }
  }

  function Pieces(path: string): seq<string>
    decreases |path|
  {
    if path == "" then [] else var n := PieceLen(path); [path[..n]] + Pieces(path[n..])
  }

  function Join(ps: seq<string>): string {
    if ps == [] then "" else ps[0] + Join(ps[1..])
  }

  /** A component is not empty, has no slash before its end, and ends in one unless it is the last. */
  predicate Component(p: string, last: bool) {
    p != "" && (forall i :: 0 <= i < |p| - 1 ==> p[i] != '/') && (last || p[|p| - 1] == '/')
  }

  predicate Components(ps: seq<string>) {
    forall i :: 0 <= i < |ps| ==> Component(ps[i], i == |ps| - 1)
  }

  lemma {:induction false} PieceIsComponent(path: string)
    requires path != ""
    ensures Component(path[..PieceLen(path)], PieceLen(path) == |path|)
  {
    var n := PieceLen(path);
    if path[0] != '/' && |path| > 1 {
      PieceIsComponent(path[1..]);
      assert path[1..][..n - 1] == path[..n][1..];
      assert forall i :: 0 < i < n ==> path[..n][i] == path[..n][1..][i - 1];
    }
  }

  /** The pieces of a path are components and make up the path again. */
  lemma {:induction false} PiecesJoin(path: string)
    ensures Components(Pieces(path)) && Join(Pieces(path)) == path
    decreases |path|
  {
    if path != "" {
      var n := PieceLen(path);
      PieceIsComponent(path);
      PiecesJoin(path[n..]);
      JoinCons(path[..n], Pieces(path[n..]));
      assert path[..n] + path[n..] == path;
    }
  }

  lemma JoinCons(p: string, ps: seq<string>)
    requires Component(p, ps == []) && Components(ps)
    ensures Components([p] + ps) && Join([p] + ps) == p + Join(ps)
  {
    var all := [p] + ps;
    assert all[1..] == ps;
    forall i | 0 <= i < |all| ensures Component(all[i], i == |all| - 1) {
      if i > 0 {
        assert Component(ps[i - 1], i - 1 == |ps| - 1);
      }
    }
  }

  lemma {:induction false} PieceLenOf(p: string, rest: string)
    requires Component(p, rest == "")
    ensures PieceLen(p + rest) == |p|
  {
    if p[0] != '/' && |p| > 1 {
      assert (p + rest)[1..] == p[1..] + rest;
      PieceLenOf(p[1..], rest);
    } else if |p| == 1 && p[0] != '/' {
      assert (p + rest)[1..] == "";
    }
  }

  /** There is no other way to cut a path into components. */
  lemma {:induction false} PiecesUnique(ps: seq<string>)
    requires Components(ps)
    ensures Pieces(Join(ps)) == ps
  {
    if ps != [] {
      var rest := Join(ps[1..]);
      assert forall i :: 0 <= i < |ps[1..]| ==> ps[1..][i] == ps[i + 1];
      PiecesUnique(ps[1..]);
      assert |ps| == 1 ==> rest == "";
      assert Component(ps[0], |ps| == 1);
      assert |ps| > 1 ==> rest != "" by {
        if |ps| > 1 {
          assert Component(ps[1], 1 == |ps| - 1);
        }
      }
      PieceLenOf(ps[0], rest);
      assert (ps[0] + rest)[..|ps[0]|] == ps[0] && (ps[0] + rest)[|ps[0]|..] == rest;
    }
  }

  // ---- names ----

  function Take(s: string, n: nat): string {
    if n <= |s| then s[..n] else s
  }

  predicate NoNul(s: string) {
    forall i :: 0 <= i < |s| ==> s[i] != '\0'
  }

  /** The character at `i` of a string stored with a closing NUL. */
  function CharAt(s: string, i: nat): char
    requires i <= |s|
  {
    if i < |s| then s[i] else '\0'
  }

  method Strneq(str: string, cmp: string, len: nat) returns (r: int)
    requires NoNul(str) && NoNul(cmp)
    ensures r == 0 <==> Take(str, len) == Take(cmp, len)
  {
    if len == 0 {
      return 0;
    }
    var i := 0;
    while i < len && (CharAt(str, i) != '\0' || CharAt(cmp, i) != '\0')
      invariant i <= |str| && i <= |cmp| && i <= len && str[..i] == cmp[..i]
      decreases len - i
    {
      if CharAt(str, i) != CharAt(cmp, i) {
        assert i < |Take(str, len)| ==> Take(str, len)[i] == str[i];
        assert i < |Take(cmp, len)| ==> Take(cmp, len)[i] == cmp[i];
        return 1;
      }
      i := i + 1;
    }
    assert str[..i] == Take(str, len) && cmp[..i] == Take(cmp, len);
    return 0;
  }

  /** An entry matches a component if its name begins with it; a directory's name is compared
      without the component's slash. */
  predicate Matches(n: FsNode, piece: string) {
    (if n.isDir && piece != "" && piece[|piece| - 1] == '/' then piece[..|piece| - 1] else piece) <= n.name
  }

  method EntNameEq(n: FsNode, path: string, nlen: nat) returns (eq: bool)
    requires NoNul(n.name) && NoNul(path) && 0 < nlen <= |path|
    ensures eq == Matches(n, path[..nlen])
  {
    var len := nlen;
    if n.isDir && path[nlen - 1] == '/' {
      len := len - 1;
    }
    var r := Strneq(n.name, path, len);
    assert path[..nlen][..len] == path[..len] == Take(path, len);
    assert Take(n.name, len) == path[..len] <==> path[..len] <= n.name;
    return r == 0;
  }

  // ---- resolving ----

  function First(tab: seq<FsNode>, walk: seq<nat>, piece: string): Option<nat> {
    if walk == [] then None
    else if walk[0] < |tab| && Matches(tab[walk[0]], piece) then Some(walk[0])
    else First(tab, walk[1..], piece)
  }

  /** The entry a component leads to from node `x`: the first match in the listing of `x`. */
  function Find(tab: seq<FsNode>, x: nat, piece: string): Option<nat> {
    if x < |tab| && tab[x].isDir then First(tab, Walk(tab, x + 1), piece) else None
  }

  function Resolve(tab: seq<FsNode>, x: Option<nat>, path: string): Option<nat>
    decreases |path|
  {
    if path == "" || x == None then x
    else var n := PieceLen(path); Resolve(tab, Find(tab, x.value, path[..n]), path[n..])
  }

  const NAME_SIZE: nat := 256

  /** The search loop over one directory. */
  method Search(tab: seq<FsNode>, x: nat, path: string, nlen: nat) returns (r: Option<nat>)
    requires x < |tab| && (forall n <- tab :: NoNul(n.name)) && NoNul(path) && 0 < nlen <= |path|
    ensures r == Find(tab, x, path[..nlen])
    ensures r.Some? ==> r.value < |tab|
  {
    if !tab[x].isDir {
      return None;
    }
    var dir := new DirHandle(x);
    ghost var left: seq<nat> := dir.Rest(tab);
    WalkIncreases(tab, x + 1);
    var ent := dir.ReadDir(tab);
    while ent.Some?
      invariant dir.inode == x && Listed(left, ent, dir.Rest(tab))
      invariant forall i :: 0 <= i < |left| ==> left[i] < |tab|
      invariant Find(tab, x, path[..nlen]) == First(tab, left, path[..nlen])
      decreases |left|
    {
      var eq := EntNameEq(tab[ent.value], path, nlen);
      if eq {
        return ent;
      }
      left := dir.Rest(tab);
      ent := dir.ReadDir(tab);
    }
    return None;
  }

  /** `ent` was read off the front of `left`, and `rest` remains. */
  ghost predicate Listed(left: seq<nat>, ent: Option<nat>, rest: seq<nat>) {
    if left == [] then ent == None else ent == Some(left[0]) && rest == left[1..]
  }

  method GetNode(tab: seq<FsNode>, root: nat, name: string) returns (r: Option<nat>)
    requires root < |tab| && (forall n <- tab :: NoNul(n.name)) && NoNul(name)
    ensures name == "" || name[0] != '/' ==> r == None
    ensures name != "" && name[0] == '/' ==> r == Resolve(tab, Some(root), Take(name[1..], NAME_SIZE))
    ensures name != "" && name[0] == '/' && |name| <= 257 ==> r == Resolve(tab, Some(root), name[1..])
  {
    if CharAt(name, 0) != '/' {
      return None;
    }
    var cur := Take(name[1..], NAME_SIZE);
    assert |name| <= 257 ==> cur == name[1..];
    var len := ParseFileDirName(cur);
    r := Some(root);
    while len > 0
      invariant NoNul(cur) && len == PieceLen(cur) && (r.Some? ==> r.value < |tab|)
      invariant Resolve(tab, r, cur) == Resolve(tab, Some(root), Take(name[1..], NAME_SIZE))
      decreases |cur|
    {
      if r == None {
        return None;
      }
      r := Search(tab, r.value, cur, len);
      cur := cur[len..];
      len := ParseFileDirName(cur);
    }
  }

  // ---- what a lookup means ----

  /** `y` is listed under `x`, matches, and nothing listed before it does. */
  ghost predicate Leads(tab: seq<FsNode>, x: nat, piece: string, y: nat) {
    && x < |tab| && tab[x].isDir && y < |tab| && Matches(tab[y], piece)
    && y in Walk(tab, x + 1)
    && forall w: nat {:trigger Matches(tab[w], piece)} ::
         w in Walk(tab, x + 1) && w < y && w < |tab| ==> !Matches(tab[w], piece)
  }

  lemma {:induction false} FirstIff(tab: seq<FsNode>, walk: seq<nat>, piece: string, y: nat)
    requires forall i :: 0 <= i < |walk| ==> walk[i] < |tab|
    requires forall i, j :: 0 <= i < j < |walk| ==> walk[i] < walk[j]
    ensures First(tab, walk, piece) == Some(y) <==>
            && y in walk && Matches(tab[y], piece)
            && forall w {:trigger Matches(tab[w], piece)} :: w in walk && w < y ==> !Matches(tab[w], piece)
  {
    if walk != [] {
      var rest := walk[1..];
      FirstIff(tab, rest, piece, y);
      assert forall w :: w in walk <==> w == walk[0] || w in rest by {
        assert walk == [walk[0]] + rest;
      }
      assert forall w :: w in rest ==> walk[0] < w;
    }
  }

  lemma FindIff(tab: seq<FsNode>, x: nat, piece: string, y: nat)
    ensures Find(tab, x, piece) == Some(y) <==> Leads(tab, x, piece, y)
  {
    if x < |tab| {
      WalkIncreases(tab, x + 1);
      FirstIff(tab, Walk(tab, x + 1), piece, y);
    }
  }

  ghost predicate IsChain(tab: seq<FsNode>, c: seq<nat>, ps: seq<string>) {
    |c| == |ps| + 1 && forall i :: 0 <= i < |ps| ==> Leads(tab, c[i], ps[i], c[i + 1])
  }

  /** A lookup succeeds with `y` exactly if a chain of first matches, one for each component of the
      path, leads from the starting node to `y`. */
  lemma ResolveIff(tab: seq<FsNode>, x: nat, path: string, y: nat)
    ensures Resolve(tab, Some(x), path) == Some(y) <==>
            exists c: seq<nat> :: IsChain(tab, c, Pieces(path)) && c[0] == x && c[|c| - 1] == y
  {
    if Resolve(tab, Some(x), path) == Some(y) {
      var c := ChainOf(tab, x, path, y);
    }
    if c: seq<nat> :| IsChain(tab, c, Pieces(path)) && c[0] == x && c[|c| - 1] == y {
      ChainResolves(tab, path, c);
    }
  }

  lemma {:induction false} ChainOf(tab: seq<FsNode>, x: nat, path: string, y: nat) returns (c: seq<nat>)
    requires Resolve(tab, Some(x), path) == Some(y)
    ensures IsChain(tab, c, Pieces(path)) && c[0] == x && c[|c| - 1] == y
    decreases |path|
  {
    if path == "" {
      c := [x];
    } else {
      var n := PieceLen(path);
      var next := Find(tab, x, path[..n]);
      assert next != None;
      FindIff(tab, x, path[..n], next.value);
      var c' := ChainOf(tab, next.value, path[n..], y);
      c := [x] + c';
    }
  }

  lemma {:induction false} ChainResolves(tab: seq<FsNode>, path: string, c: seq<nat>)
    requires IsChain(tab, c, Pieces(path))
    ensures Resolve(tab, Some(c[0]), path) == Some(c[|c| - 1])
    decreases |path|
  {
    if path != "" {
      var n := PieceLen(path);
      assert Leads(tab, c[0], Pieces(path)[0], c[1]);
      FindIff(tab, c[0], path[..n], c[1]);
      assert IsChain(tab, c[1..], Pieces(path[n..])) by {
        forall i | 0 <= i < |Pieces(path[n..])|
          ensures Leads(tab, c[1..][i], Pieces(path[n..])[i], c[1..][i + 1])
        {
          assert Leads(tab, c[i + 1], Pieces(path)[i + 1], c[i + 2]);
        }
      }
      ChainResolves(tab, path[n..], c[1..]);
    }
  }

  // ---- looking up the nodes of a forest ----

  /** The way to a node of a forest: a top node, or a node under it. */
  datatype Way = Here(i: nat) | Under(i: nat, way: Way)

  predicate Chooses(f: seq<Tree>, c: Way)
    decreases c
  {
    c.i < |f| && (c.Under? ==> Chooses(Kids(f[c.i]), c.way))
  }

  function NodePath(f: seq<Tree>, c: Way): string
    requires Chooses(f, c)
    decreases c
  {
    match c
    case Here(i) => PathOf("", f[i])
    case Under(i, way) => PathOf("", f[i]) + NodePath(Kids(f[i]), way)
  }

  /** Where the chosen node stands in a table that holds the forest from `p` on. */
  function Inode(f: seq<Tree>, p: nat, c: Way): nat
    requires Chooses(f, c)
    decreases c
  {
    match c
    case Here(i) => Tops(f, p)[i]
    case Under(i, way) => Inode(Kids(f[i]), Tops(f, p)[i] + 1, way)
  }

  /** Nothing listed before `top` matches. */
  predicate Clear(tab: seq<FsNode>, p: nat, top: nat, piece: string) {
    true == (forall w: nat {:trigger Matches(tab[w], piece)} ::
               w in Walk(tab, p) && w < top && w < |tab| ==> !Matches(tab[w], piece))
  }

  /** No component of the node's path is taken by an entry listed earlier. */
  predicate Unshadowed(tab: seq<FsNode>, p: nat, f: seq<Tree>, c: Way)
    requires Chooses(f, c)
    decreases c
  {
    && Clear(tab, p, Tops(f, p)[c.i], PathOf("", f[c.i]))
    && (c.Under? ==> Unshadowed(tab, Tops(f, p)[c.i] + 1, Kids(f[c.i]), c.way))
  }

  lemma OwnNameMatches(t: Tree)
    ensures Matches(NodeAt(t), PathOf("", t))
  {
    var path := PathOf("", t);
    if t.Dir? {
      assert path[..|path| - 1] == t.name;
    } else {
      assert path == t.name;
    }
  }

  /** A directory's child is found under its own name exactly if no entry listed before it, child
      or not, has a name that begins with it. */
  lemma FindsChildIff(tab: seq<FsNode>, x: nat, kids: seq<Tree>, i: nat)
    requires x < |tab| && tab[x].isDir && At(tab, x + 1, kids) && i < |kids|
    ensures Find(tab, x, PathOf("", kids[i])) == Some(Tops(kids, x + 1)[i]) <==>
            Clear(tab, x + 1, Tops(kids, x + 1)[i], PathOf("", kids[i]))
  {
    var top, piece := Tops(kids, x + 1)[i], PathOf("", kids[i]);
    TopAt(tab, x + 1, kids, i);
    ListsEveryTop(tab, x + 1, kids);
    OwnNameMatches(kids[i]);
    FindIff(tab, x, piece, top);
  }

  lemma PathIsComponent(t: Tree, rest: string)
    requires NameOk(t.name) && (t.File? ==> rest == "")
    ensures Component(PathOf("", t), rest == "")
  {
    PathChars("", t, PathOf("", t));
  }

  /** Node `x` is a directory whose forest `f` follows it in the table.  One Boolean value, so that
      the proofs below pass it on whole. */
  predicate Mounted(tab: seq<FsNode>, x: nat, f: seq<Tree>) {
    true == (ForestOk(f) && x < |tab| && tab[x].isDir && At(tab, x + 1, f))
  }

  /** Every node of an archive, at any depth, is found under its own path, if no component of the
      path is taken by an entry listed earlier. */
  lemma {:induction false} LookupFinds(tab: seq<FsNode>, x: nat, f: seq<Tree>, c: Way, path: string, y: nat)
    requires Mounted(tab, x, f) && Chooses(f, c) && Unshadowed(tab, x + 1, f, c)
    requires path == NodePath(f, c) && y == Inode(f, x + 1, c)
    ensures Resolve(tab, Some(x), path) == Some(y)
    decreases c
  {
    match c
    case Here(i) =>
      assert path == PathOf("", f[i]) + "";
      LookupStep(tab, x, f, i, "", path, y);
    case Under(i, way) =>
      var top, rest := Tops(f, x + 1)[i], NodePath(Kids(f[i]), way);
      LookupStep(tab, x, f, i, rest, path, top);
      LookupUnder(tab, x, f, i, top);
      LookupFinds(tab, top, Kids(f[i]), way, rest, y);
  }

  /** For a node at the top of the directory searched, the condition is exact. */
  lemma TopLookupIff(tab: seq<FsNode>, x: nat, f: seq<Tree>, i: nat)
    requires Mounted(tab, x, f) && i < |f|
    ensures Resolve(tab, Some(x), NodePath(f, Here(i))) == Some(Inode(f, x + 1, Here(i))) <==>
            Unshadowed(tab, x + 1, f, Here(i))
  {
    assert TreeOk(f[i]);
    var path := PathOf("", f[i]);
    PathIsComponent(f[i], "");
    assert path + "" == path && path[..|path|] == path && path[|path|..] == "";
    PieceLenOf(path, "");
    FindsChildIff(tab, x, f, i);
  }

  /** The same for the name a caller passes: a slash and the node's path, of at most 256 characters. */
  lemma NameFinds(tab: seq<FsNode>, x: nat, f: seq<Tree>, c: Way, name: string)
    requires Mounted(tab, x, f) && Chooses(f, c) && Unshadowed(tab, x + 1, f, c)
    requires name == "/" + NodePath(f, c) && |name| <= 257
    ensures Resolve(tab, Some(x), Take(name[1..], NAME_SIZE)) == Some(Inode(f, x + 1, c))
  {
    assert Take(name[1..], NAME_SIZE) == NodePath(f, c);
    LookupFinds(tab, x, f, c, NodePath(f, c), Inode(f, x + 1, c));
  }

  lemma LookupUnder(tab: seq<FsNode>, x: nat, f: seq<Tree>, i: nat, top: nat)
    requires Mounted(tab, x, f) && i < |f| && Kids(f[i]) != [] && top == Tops(f, x + 1)[i]
    ensures Mounted(tab, top, Kids(f[i]))
  {
    assert TreeOk(f[i]);
    TopAt(tab, x + 1, f, i);
  }

  lemma LookupStep(tab: seq<FsNode>, x: nat, f: seq<Tree>, i: nat, rest: string, path: string, top: nat)
    requires Mounted(tab, x, f) && i < |f| && top == Tops(f, x + 1)[i] && (Kids(f[i]) == [] ==> rest == "")
    requires Clear(tab, x + 1, top, PathOf("", f[i]))
    requires path == PathOf("", f[i]) + rest
    ensures Resolve(tab, Some(x), path) == Resolve(tab, Some(top), rest)
  {
    assert TreeOk(f[i]);
    FindsChildIff(tab, x, f, i);
    PathIsComponent(f[i], rest);
    ResolveStep(tab, x, PathOf("", f[i]), rest, path, top);
  }

  lemma ResolveStep(tab: seq<FsNode>, x: nat, piece: string, rest: string, path: string, y: nat)
    requires path == piece + rest && Component(piece, rest == "") && Find(tab, x, piece) == Some(y)
    ensures Resolve(tab, Some(x), path) == Resolve(tab, Some(y), rest)
  {
    PieceLenOf(piece, rest);
    assert path[..|piece|] == piece && path[|piece|..] == rest;
  }

  // ---- from the archive to the lookup ----

  lemma {:induction false} NodesCount(prefix: string, f: seq<Tree>, at: nat)
    ensures |Nodes(prefix, f, at)| == SizeAll(f)
    decreases f
  {
    if f != [] {
      NodesCountTree(prefix, f[0], at);
      NodesCount(prefix, f[1..], at + |FlattenTree(prefix, f[0])|);
    }
  }

  lemma {:induction false} NodesCountTree(prefix: string, t: Tree, at: nat)
    ensures |NodesOf(prefix, t, at)| == Size(t)
    decreases t, 0
  {
    if t.Dir? {
      NodesCount(PathOf(prefix, t), t.kids, at + 2);
    }
  }

  /** `es` holds the entries of `f` from `p` on, with their full paths. */
  predicate Named(es: seq<Entry>, p: nat, prefix: string, f: seq<Tree>)
    decreases f
  {
    if f == [] then p <= |es|
    else NamedTree(es, p, prefix, f[0]) && Named(es, p + Size(f[0]), prefix, f[1..])
  }

  predicate NamedTree(es: seq<Entry>, p: nat, prefix: string, t: Tree)
    decreases t, 0
  {
    && p < |es| && es[p].name == PathOf(prefix, t)
    && match t case File(_, _, _) => true case Dir(_, _, kids) => Named(es, p + 1, PathOf(prefix, t), kids)
  }

  lemma {:induction false} NodesNamed(es: seq<Entry>, p: nat, e: nat, prefix: string, f: seq<Tree>, at: nat)
    requires p <= e <= |es| && es[p..e] == Nodes(prefix, f, at)
    ensures Named(es, p, prefix, f)
    decreases f
  {
    if f != [] {
      var next := at + |FlattenTree(prefix, f[0])|;
      var a := NodesOf(prefix, f[0], at);
      SliceSplit(es, p, e, a, Nodes(prefix, f[1..], next));
      NodesCountTree(prefix, f[0], at);
      TreeNamed(es, p, p + |a|, prefix, f[0], at);
      NodesNamed(es, p + |a|, e, prefix, f[1..], next);
    }
  }

  lemma {:induction false} TreeNamed(es: seq<Entry>, p: nat, e: nat, prefix: string, t: Tree, at: nat)
    requires p <= e <= |es| && es[p..e] == NodesOf(prefix, t, at)
    ensures NamedTree(es, p, prefix, t)
    decreases t, 0
  {
    assert |es[p..e]| == e - p >= 1;
    assert es[p] == es[p..e][0];
    if t.Dir? {
      assert es[p + 1..e] == es[p..e][1..] == Nodes(PathOf(prefix, t), t.kids, at + 2);
      NodesNamed(es, p + 1, e, PathOf(prefix, t), t.kids, at + 2);
    }
  }

  lemma {:induction false} NamedTop(es: seq<Entry>, p: nat, prefix: string, f: seq<Tree>, i: nat)
    requires Named(es, p, prefix, f) && i < |f|
    ensures NamedTree(es, Tops(f, p)[i], prefix, f[i])
    decreases f
  {
    if i > 0 {
      NamedTop(es, p + Size(f[0]), prefix, f[1..], i - 1);
    }
  }

  lemma {:induction false} InodeNamed(es: seq<Entry>, p: nat, prefix: string, f: seq<Tree>, c: Way)
    requires Named(es, p, prefix, f) && Chooses(f, c)
    ensures Inode(f, p, c) < |es| && es[Inode(f, p, c)].name == prefix + NodePath(f, c)
    decreases c
  {
    NamedTop(es, p, prefix, f, c.i);
    match c
    case Here(i) =>
      PathUnder(prefix, f[i], "");
    case Under(i, way) =>
      InodeNamed(es, Tops(f, p)[i] + 1, PathOf(prefix, f[i]), Kids(f[i]), way);
      PathUnder(prefix, f[i], NodePath(Kids(f[i]), way));
  }

  lemma PathUnder(prefix: string, t: Tree, rest: string)
    ensures PathOf(prefix, t) + rest == prefix + (PathOf("", t) + rest)
    ensures PathOf(prefix, t) == prefix + PathOf("", t)
  {
  }

  lemma ParsedNamed(f: seq<Tree>, es: seq<Entry>)
    requires ForestOk(f) && es == Parse(Flatten("", f)).1
    ensures Named(es, 1, "", f)
  {
    ParseRoundTrip(f);
    assert es[1..|es|] == Nodes("", f, 0);
    NodesNamed(es, 1, |es|, "", f, 0);
  }

  lemma NamedLookup(tab: seq<FsNode>, es: seq<Entry>, f: seq<Tree>, c: Way, path: string, found: Option<nat>)
    requires Mounted(tab, 0, f) && Chooses(f, c) && Unshadowed(tab, 1, f, c)
    requires path == NodePath(f, c) && found == Resolve(tab, Some(0), path)
    requires Named(es, 1, "", f)
    ensures found.Some? && found.value < |es| && es[found.value].name == path
  {
    var y := Inode(f, 1, c);
    assert found == Some(y) by {
      LookupFinds(tab, 0, f, c, path, y);
    }
    assert y < |es| && es[y].name == path by {
      NameAtInode(es, 1, f, c, path, y);
    }
  }

  lemma NameAtInode(es: seq<Entry>, p: nat, f: seq<Tree>, c: Way, path: string, y: nat)
    requires Named(es, p, "", f) && Chooses(f, c) && path == NodePath(f, c) && y == Inode(f, p, c)
    ensures y < |es| && es[y].name == path
  {
    InodeNamed(es, p, "", f, c);
    assert "" + path == path;
  }

  lemma ParsedTable(f: seq<Tree>, hs: seq<Header>, es: seq<Entry>, tab: seq<FsNode>)
    requires ForestOk(f) && hs == Flatten("", f) && es == Parse(hs).1 && tab == MapFs(es)
    ensures Mounted(tab, 0, f) && Named(es, 1, "", f)
  {
    MountedTable(f);
    TableIsAt(f);
    ParsedNamed(f, es);
  }

  /** From the archive of a forest to a lookup in it: looking up the path of any node from the root
      gives the entry whose header bears that very path, if no component is taken earlier. */
  lemma ArchiveLookup(f: seq<Tree>, c: Way, es: seq<Entry>, tab: seq<FsNode>, path: string, found: Option<nat>)
    requires ForestOk(f) && es == Parse(Flatten("", f)).1 && tab == MapFs(es)
    requires Chooses(f, c) && path == NodePath(f, c) && Unshadowed(tab, 1, f, c)
    requires found == Resolve(tab, Some(0), path)
    ensures found.Some? && found.value < |es| && es[found.value].name == path
  {
    ParsedTable(f, Flatten("", f), es, tab);
    NamedLookup(tab, es, f, c, path, found);
  }

  /** The condition is needed: a name that begins with another takes its place. */
  lemma LongerNameShadows(pax: Header)
    ensures var f := [File(pax, "ab", 0), File(pax, "a", 0)];
            ForestOk(f) && Tops(f, 1)[1] == 2 && Find(Table(f), 0, PathOf("", f[1])) == Some(1)
  {
    var f := [File(pax, "ab", 0), File(pax, "a", 0)];
    var tab := Table(f);
    assert Slashes("a") == 0 by { assert "a"[..0] == ""; }
    assert Slashes("ab") == 0 by { assert "ab"[..1] == "a"; }
    assert f[1..] == [f[1]];
    TableIsAt(f);
    assert tab[1] == NodeAt(f[0]);
    assert Walk(tab, 1)[0] == 1;
  }

  // ---- a node that is found although a component of its path is taken ----

  function Doubtful(pax: Header): seq<Tree> {
    [Dir(pax, "ab", []), Dir(pax, "a", Beneath(pax))]
  }

  function Beneath(pax: Header): seq<Tree> {
    [Dir(pax, "k", [File(pax, "m", 0)]), File(pax, "x", 0)]
  }

  function DoubtfulTable(): seq<FsNode> {
    [FsNode("/", true, 0, 2), FsNode("ab", true, 0, 0), FsNode("a", true, 0, 2),
     FsNode("k", true, 0, 1), FsNode("m", false, 0, 0), FsNode("x", false, 0, 0)]
  }

  lemma DoubtfulLayout(pax: Header)
    ensures FsForest(Beneath(pax)) == DoubtfulTable()[3..] && Tops(Beneath(pax), 3) == [3, 5]
    ensures Table(Doubtful(pax)) == DoubtfulTable() && Tops(Doubtful(pax), 1) == [1, 2]
  {
    var f, g := Doubtful(pax), Beneath(pax);
    var m := [File(pax, "m", 0)];
    assert m[1..] == [] && FsForest(m) == [FsNode("m", false, 0, 0)];
    assert g[1..] == [g[1]] && g[1..][1..] == [];
    assert FsForest(g[1..]) == [FsNode("x", false, 0, 0)];
    assert FsTree(g[0]) == [FsNode("k", true, 0, 1), FsNode("m", false, 0, 0)];
    assert FsForest(g) == FsTree(g[0]) + FsForest(g[1..]);
    assert f[1..] == [f[1]] && f[1..][1..] == [];
    assert FsTree(f[0]) == [FsNode("ab", true, 0, 0)];
    assert FsForest(f[1..]) == FsTree(f[1]) == [FsNode("a", true, 0, 2)] + FsForest(g);
  }

  lemma DoubtfulFinds(tab: seq<FsNode>)
    requires tab == DoubtfulTable()
    ensures Find(tab, 0, "a/") == Some(1) && Find(tab, 1, "x") == Some(5)
  {
    assert Walk(tab, 1)[0] == 1;
    assert "a/"[..1] == "a";
    assert Walk(tab, 5) == [5] + Walk(tab, 6) && Walk(tab, 2) == [2] + Walk(tab, 5);
    assert Walk(tab, 2)[1..] == Walk(tab, 5);
  }

  /** Below the top the condition is not exact: the directory "a" is taken by "ab", whose listing
      runs on to the very file looked for. */
  lemma ShadowedStillFound(pax: Header)
    ensures var f, c := Doubtful(pax), Under(1, Here(1));
            && Chooses(f, c) && !Unshadowed(Table(f), 1, f, c)
            && Resolve(Table(f), Some(0), NodePath(f, c)) == Some(Inode(f, 1, c))
  {
    var f, c, tab := Doubtful(pax), Under(1, Here(1)), DoubtfulTable();
    DoubtfulLayout(pax);
    DoubtfulFinds(tab);
    assert NodePath(f, c) == "a/" + "x";
    PieceLenOf("a/", "x");
    PieceLenOf("x", "");
    var path := "a/" + "x";
    assert path[..2] == "a/" && path[2..] == "x" && "x"[..1] == "x" && "x"[1..] == "" && "x" + "" == "x";
    assert Resolve(tab, Some(1), "x") == Some(5);
    assert 1 in Walk(tab, 1) && Matches(tab[1], PathOf("", f[1]));
  }
}
