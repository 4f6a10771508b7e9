/** Parsing the initial ramdisk: a flat ustar archive in pax format, where every real header is
    preceded by an extended one, is turned into a table of entries with child counts. */
module TarParse {
  import opened Basics

  const HEADER_SIZE: nat := 512

  datatype Header = Header(name: string, size: nat)

  /** `at` is the number of the entry's header in the archive; `sub` its child count, unset for a
      directory no child has been parsed for. */
  datatype Entry = Entry(at: nat, name: string, size: nat, isDir: bool, sub: Option<nat>)

  // ---- names ----

  function Slashes(s: string): nat {
    if s == "" then 0 else Slashes(s[..|s| - 1]) + if s[|s| - 1] == '/' then 1 else 0
  }

  /** How deep an entry lies: slashes before the last character, plus one. */
  function FileDepth(name: string): nat {
    1 + Slashes(if name == "" then "" else name[..|name| - 1])
  }

  method GetFileDepth(name: string) returns (depth: nat)
    requires name != ""
    ensures depth == FileDepth(name)
  {
    depth := 1;
    for i := 0 to |name| - 1
      invariant depth == 1 + Slashes(name[..i])
    {
      assert name[..i + 1][..i] == name[..i];
      if name[i] == '/' {
        depth := depth + 1;
      }
    }
  }

  // ---- the recursive parse ----

  /** Extended headers stand at the even places, right before the real ones. */
  predicate Pax(pos: nat) {
    if pos == 0 then true else !Pax(pos - 1)
  }

  lemma {:induction false} PaxIsEven(pos: nat)
    ensures Pax(pos) <==> pos % 2 == 0
  {
    if pos > 0 {
      PaxIsEven(pos - 1);
    }
  }

  function SetSub(ents: seq<Entry>, parent: nat, count: nat): seq<Entry>
    requires parent < |ents|
  {
    ents[parent := ents[parent].(sub := Some(count))]
  }

  function NewEntry(h: Header, at: nat): Entry {
    var isDir := h.name != "" && h.name[|h.name| - 1] == '/';
    Entry(at, h.name, h.size, isDir, if isDir then None else Some(0))
  }

  /** One activation of the parser from header `pos` on: `count` entries of its depth seen so far.
      A deeper entry starts a nested activation under the newest entry, a shallower one ends
      this activation. */
  function ParseRec(hs: seq<Header>, pos: nat, depth: nat, ents: seq<Entry>, parent: nat, count: nat)
    : (r: (nat, seq<Entry>))
    requires pos <= |hs| && parent < |ents|
    ensures pos <= r.0 <= |hs| && |ents| <= |r.1|
    ensures pos < |hs| && (Pax(pos) || FileDepth(hs[pos].name) == depth) ==> pos < r.0
    decreases |hs| - pos, if pos < |hs| && FileDepth(hs[pos].name) == depth then 0 else 1
  {
    if pos == |hs| then (pos, SetSub(ents, parent, count))
    else if Pax(pos) then ParseRec(hs, pos + 1, depth, ents, parent, count)
    else
      var d := FileDepth(hs[pos].name);
      if d > depth then
        var (p, es) := ParseRec(hs, pos, d, ents, |ents| - 1, 0);
        ParseRec(hs, p, depth, es, parent, count)
      else if d < depth then (pos, SetSub(ents, parent, count))
      else ParseRec(hs, pos + 1, depth, ents + [NewEntry(hs[pos], pos)], parent, count + 1)
  }

  const ROOT: Entry := Entry(0, "/", 0, true, None)

  function Parse(hs: seq<Header>): (nat, seq<Entry>) {
    ParseRec(hs, 0, 1, [ROOT], 0, 0)
  }

  // ---- file trees ----

  /** A file tree; each node carries the extended header that precedes its own. */
  datatype Tree =
    | File(pax: Header, name: string, size: nat)
    | Dir(pax: Header, name: string, kids: seq<Tree>)

  predicate NameOk(s: string) {
    s != "" && Slashes(s) == 0
  }

  predicate TreeOk(t: Tree) {
    NameOk(t.name) && (t.Dir? ==> ForestOk(t.kids))
  }

  predicate ForestOk(f: seq<Tree>) {
    forall i :: 0 <= i < |f| ==> TreeOk(f[i])
  }

  function PathOf(prefix: string, t: Tree): string {
    prefix + t.name + if t.Dir? then "/" else ""
  }

  function HeaderOf(prefix: string, t: Tree): Header {
    Header(PathOf(prefix, t), if t.Dir? then 0 else t.size)
  }

  function Kids(t: Tree): seq<Tree> {
    if t.Dir? then t.kids else []
  }

  /** The archive of a forest under `prefix`, in pre-order. */
  function Flatten(prefix: string, f: seq<Tree>): seq<Header>
    decreases f
  {
    if f == [] then []
    else FlattenTree(prefix, f[0]) + Flatten(prefix, f[1..])
  }

  function FlattenTree(prefix: string, t: Tree): seq<Header>
    decreases t, 0
  {
    match t
    case File(pax, _, _) => [pax, HeaderOf(prefix, t)]
    case Dir(pax, _, kids) => [pax, HeaderOf(prefix, t)] + Flatten(PathOf(prefix, t), kids)
  }

  /** The entries of a forest in pre-order, when its archive starts at header `at`. */
  function Nodes(prefix: string, f: seq<Tree>, at: nat): seq<Entry>
    decreases f
  {
    if f == [] then []
    else NodesOf(prefix, f[0], at) + Nodes(prefix, f[1..], at + |FlattenTree(prefix, f[0])|)
  }

  function NodesOf(prefix: string, t: Tree, at: nat): seq<Entry>
    decreases t, 0
  {
    match t
    case File(_, _, _) => [NodeOf(prefix, t, at + 1)]
    case Dir(_, _, kids) => [NodeOf(prefix, t, at + 1)] + Nodes(PathOf(prefix, t), kids, at + 2)
  }

  /** The finished entry of `t`: a non-empty directory knows the number of its children. */
  function NodeOf(prefix: string, t: Tree, at: nat): Entry {
    var h := HeaderOf(prefix, t);
    Entry(at, h.name, h.size, t.Dir?,
          if t.File? then Some(0) else if t.kids == [] then None else Some(|t.kids|))
  }

  // ---- depth of a path ----

  lemma {:induction false} SlashesSum(s: string, t: string)
    ensures Slashes(s + t) == Slashes(s) + Slashes(t)
  {
    if t == "" {
      assert s + t == s;
    } else {
      SlashesSum(s, t[..|t| - 1]);
      assert (s + t)[..|s + t| - 1] == s + t[..|t| - 1];
    }
  }

  lemma {:induction false} SlashesPart(s: string, k: nat)
    requires k <= |s| && Slashes(s) == 0
    ensures Slashes(s[..k]) == 0
    decreases |s| - k
  {
    if k == |s| {
      assert s[..k] == s;
    } else {
      SlashesPart(s, k + 1);
      assert s[..k + 1][..k] == s[..k];
    }
  }

  /** An entry right under a prefix of `d - 1` components has depth `d`, and so have no others. */
  lemma DepthOfPath(prefix: string, t: Tree)
    requires NameOk(t.name)
    ensures PathOf(prefix, t) != ""
    ensures FileDepth(PathOf(prefix, t)) == 1 + Slashes(prefix)
    ensures t.Dir? ==> Slashes(PathOf(prefix, t)) == 1 + Slashes(prefix)
    ensures NewEntry(HeaderOf(prefix, t), 0).isDir == t.Dir?
  {
    var path := PathOf(prefix, t);
    SlashesSum(prefix, t.name);
    if t.Dir? {
      assert path[..|path| - 1] == prefix + t.name;
    } else {
      var k := |t.name| - 1;
      assert path[..|path| - 1] == prefix + t.name[..k];
      SlashesSum(prefix, t.name[..k]);
      SlashesPart(t.name, k);
      assert t.name[k] != '/';
      assert path[|path| - 1] == t.name[k];
    }
  }

  // ---- the parse of a flattened forest ----

  lemma {:induction false} EvenLength(prefix: string, f: seq<Tree>)
    ensures |Flatten(prefix, f)| % 2 == 0
    ensures f != [] ==> |Flatten(prefix, f)| >= 2
    decreases f
  {
    if f != [] {
      EvenTree(prefix, f[0]);
      EvenLength(prefix, f[1..]);
    }
  }

  lemma {:induction false} EvenTree(prefix: string, t: Tree)
    ensures |FlattenTree(prefix, t)| % 2 == 0 && |FlattenTree(prefix, t)| >= 2
    decreases t, 0
  {
    if t.Dir? {
      EvenLength(PathOf(prefix, t), t.kids);
    }
  }

  /** The archive `hs` holds `f` under `prefix` from header `at` on, and what follows, if
      anything, is shallower than depth `d`. */
  predicate Holds(hs: seq<Header>, at: nat, prefix: string, f: seq<Tree>, d: nat) {
    var e := at + |Flatten(prefix, f)|;
    && e <= |hs| && hs[at..e] == Flatten(prefix, f)
    && (e == |hs| || (e + 1 < |hs| && FileDepth(hs[e + 1].name) < d))
  }

  /** Where an activation at the forest's depth stops. */
  function StopAt(hs: seq<Header>, at: nat, prefix: string, f: seq<Tree>): nat {
    var e := at + |Flatten(prefix, f)|;
    if e == |hs| then e else e + 1
  }

  lemma HoldsSplit(hs: seq<Header>, at: nat, m: nat, prefix: string, f: seq<Tree>, d: nat)
    requires f != [] && Holds(hs, at, prefix, f, d) && m == at + |FlattenTree(prefix, f[0])| && Pax(at)
    ensures at + 2 <= m <= |hs| && Pax(m)
    ensures hs[at..m] == FlattenTree(prefix, f[0])
    ensures Holds(hs, m, prefix, f[1..], d)
    ensures StopAt(hs, m, prefix, f[1..]) == StopAt(hs, at, prefix, f)
  {
    EvenTree(prefix, f[0]);
    PaxIsEven(at);
    PaxIsEven(m);
    SliceSplit(hs, at, at + |Flatten(prefix, f)|, FlattenTree(prefix, f[0]), Flatten(prefix, f[1..]));
  }

  /** After a tree comes the next one of the forest, or something shallower, or nothing. */
  lemma HoldsNext(hs: seq<Header>, at: nat, prefix: string, f: seq<Tree>, d: nat)
    requires Holds(hs, at, prefix, f, d) && d == 1 + Slashes(prefix) && ForestOk(f)
    ensures at == |hs| || (at + 1 < |hs| && FileDepth(hs[at + 1].name) <= d)
    ensures f != [] ==> at + 1 < |hs| && FileDepth(hs[at + 1].name) == d
  {
    if f != [] {
      NextTree(hs, at, at + |Flatten(prefix, f)|, prefix, f);
    }
  }

  lemma HoldsNothing(hs: seq<Header>, at: nat, prefix: string, d: nat, stop: nat)
    requires Holds(hs, at, prefix, [], d) && Pax(at) && stop == if at == |hs| then at else at + 1
    ensures stop == StopAt(hs, at, prefix, [])
    ensures stop == |hs| || (stop < |hs| && !Pax(stop) && FileDepth(hs[stop].name) < d)
  {
  }

  lemma HoldsKids(hs: seq<Header>, at: nat, m: nat, prefix: string, t: Tree, d: nat)
    requires t.Dir? && at <= m <= |hs| && hs[at..m] == FlattenTree(prefix, t)
    requires m == |hs| || (m + 1 < |hs| && FileDepth(hs[m + 1].name) <= d)
    ensures Holds(hs, at + 2, PathOf(prefix, t), t.kids, d + 1)
    ensures at + 2 <= m && hs[at + 2..m] == Flatten(PathOf(prefix, t), t.kids)
    ensures StopAt(hs, at + 2, PathOf(prefix, t), t.kids) == if m == |hs| then m else m + 1
  {
    SliceSplit(hs, at, m, [t.pax, HeaderOf(prefix, t)], Flatten(PathOf(prefix, t), t.kids));
  }

  lemma NextTree(hs: seq<Header>, at: nat, e: nat, prefix: string, f: seq<Tree>)
    requires f != [] && ForestOk(f) && at <= e <= |hs| && hs[at..e] == Flatten(prefix, f)
    ensures at + 1 < e && FileDepth(hs[at + 1].name) == 1 + Slashes(prefix)
  {
    EvenTree(prefix, f[0]);
    assert TreeOk(f[0]);
    DepthOfPath(prefix, f[0]);
    assert hs[at + 1] == hs[at..e][1] == HeaderOf(prefix, f[0]);
  }

  lemma EntryIsNode(prefix: string, t: Tree, at: nat)
    requires TreeOk(t)
    ensures NewEntry(HeaderOf(prefix, t), at) ==
              NodeOf(prefix, t, at).(sub := if t.File? then Some(0) else None)
  {
    DepthOfPath(prefix, t);
  }

  // the five ways an activation goes on

  lemma AtEnd(hs: seq<Header>, d: nat, ents: seq<Entry>, parent: nat, count: nat)
    requires parent < |ents|
    ensures ParseRec(hs, |hs|, d, ents, parent, count) == (|hs|, SetSub(ents, parent, count))
  {
  }

  lemma AtPax(hs: seq<Header>, pos: nat, d: nat, ents: seq<Entry>, parent: nat, count: nat)
    requires pos < |hs| && Pax(pos) && parent < |ents|
    ensures ParseRec(hs, pos, d, ents, parent, count) == ParseRec(hs, pos + 1, d, ents, parent, count)
  {
  }

  lemma AtShallower(hs: seq<Header>, pos: nat, d: nat, ents: seq<Entry>, parent: nat, count: nat)
    requires pos < |hs| && !Pax(pos) && parent < |ents| && FileDepth(hs[pos].name) < d
    ensures ParseRec(hs, pos, d, ents, parent, count) == (pos, SetSub(ents, parent, count))
  {
  }

  lemma AtSibling(hs: seq<Header>, pos: nat, d: nat, ents: seq<Entry>, parent: nat, count: nat)
    requires pos < |hs| && !Pax(pos) && parent < |ents| && FileDepth(hs[pos].name) == d
    ensures ParseRec(hs, pos, d, ents, parent, count) ==
            ParseRec(hs, pos + 1, d, ents + [NewEntry(hs[pos], pos)], parent, count + 1)
  {
  }

  lemma AtDeeper(hs: seq<Header>, pos: nat, d: nat, ents: seq<Entry>, parent: nat, count: nat,
                 d': nat, p: nat, es: seq<Entry>)
    requires pos < |hs| && !Pax(pos) && parent < |ents| && FileDepth(hs[pos].name) == d' > d
    requires ParseRec(hs, pos, d', ents, |ents| - 1, 0) == (p, es)
    ensures p <= |hs| && parent < |es|
    ensures ParseRec(hs, pos, d, ents, parent, count) == ParseRec(hs, p, d, es, parent, count)
  {
  }

  lemma AtForestEnd(hs: seq<Header>, stop: nat, d: nat, ents: seq<Entry>, parent: nat, count: nat)
    requires parent < |ents|
    requires stop == |hs| || (stop < |hs| && !Pax(stop) && FileDepth(hs[stop].name) < d)
    ensures ParseRec(hs, stop, d, ents, parent, count) == (stop, SetSub(ents, parent, count))
  {
  }

  lemma AtFile(hs: seq<Header>, pos: nat, stop: nat, d: nat, ents: seq<Entry>, parent: nat, count: nat)
    requires pos <= |hs| && Pax(pos) && parent < |ents|
    requires stop == if pos == |hs| then pos else pos + 1
    ensures ParseRec(hs, pos, d, ents, parent, count) == ParseRec(hs, stop, d, ents, parent, count)
  {
  }

  /** A directory's own header followed by an archive that a nested activation takes in. */
  lemma AtDirectory(hs: seq<Header>, pos: nat, next: nat, stop: nat, d: nat, ents: seq<Entry>, es: seq<Entry>,
                    parent: nat, count: nat)
    requires next == pos + 1 < |hs| && Pax(pos) && parent < |ents| && FileDepth(hs[next].name) == d + 1
    requires ParseRec(hs, next, d + 1, ents, |ents| - 1, 0) == (stop, es)
    ensures stop <= |hs| && parent < |es|
    ensures ParseRec(hs, pos, d, ents, parent, count) == ParseRec(hs, stop, d, es, parent, count)
  {
    AtPax(hs, pos, d, ents, parent, count);
    AtDeeper(hs, next, d, ents, parent, count, d + 1, stop, es);
  }

  /** An activation at depth `d` that meets the real header of a forest's first tree takes in the
      whole forest: it adds the forest's entries in order, with their child counts, gives its
      parent the number of top entries, and stops where the forest's archive ends. */
  lemma {:induction false} ParsesForest(hs: seq<Header>, at: nat, end: nat, prefix: string, f: seq<Tree>, d: nat,
                                        ents: seq<Entry>, es: seq<Entry>, parent: nat, count: nat, total: nat)
    requires f != [] && ForestOk(f) && Pax(at) && d == 1 + Slashes(prefix)
    requires Holds(hs, at, prefix, f, d) && parent < |ents| && at + 1 <= |hs|
    requires total == count + |f|
    requires end == StopAt(hs, at, prefix, f) && es == ents + Nodes(prefix, f, at)
    ensures ParseRec(hs, at + 1, d, ents, parent, count) == (end, SetSub(es, parent, total))
    decreases f, 0
  {
    var t, rest := f[0], f[1..];
    var m := at + |FlattenTree(prefix, t)|;
    var stop := if m == |hs| then m else m + 1;
    var ents2 := ents + NodesOf(prefix, t, at);
    HoldsSplit(hs, at, m, prefix, f, d);
    HoldsNext(hs, m, prefix, rest, d);
    assert ParseRec(hs, at + 1, d, ents, parent, count) == ParseRec(hs, stop, d, ents2, parent, count + 1) by {
      ParsesTree(hs, at, m, stop, prefix, t, d, ents, parent, count);
    }
    assert ParseRec(hs, stop, d, ents2, parent, count + 1) == (end, SetSub(es, parent, total)) by {
      NodesSplit(prefix, f, at, m, ents, ents2, es);
      ParsesRest(hs, m, stop, end, prefix, rest, d, ents2, es, parent, count + 1, total);
    }
  }

  lemma {:induction false} ParsesRest(hs: seq<Header>, at: nat, stop: nat, end: nat, prefix: string, f: seq<Tree>,
                                      d: nat, ents: seq<Entry>, es: seq<Entry>, parent: nat, count: nat, total: nat)
    requires ForestOk(f) && Pax(at) && d == 1 + Slashes(prefix)
    requires Holds(hs, at, prefix, f, d) && parent < |ents| && at <= |hs|
    requires stop == if at == |hs| then at else at + 1
    requires total == count + |f|
    requires end == StopAt(hs, at, prefix, f) && es == ents + Nodes(prefix, f, at)
    ensures stop <= |hs| && ParseRec(hs, stop, d, ents, parent, count) == (end, SetSub(es, parent, total))
    decreases f, 1
  {
    HoldsNext(hs, at, prefix, f, d);
    if f == [] {
      HoldsNothing(hs, at, prefix, d, stop);
      assert es == ents;
      AtForestEnd(hs, stop, d, ents, parent, count);
    } else {
      ParsesForest(hs, at, end, prefix, f, d, ents, es, parent, count, total);
    }
  }

  lemma NodesSplit(prefix: string, f: seq<Tree>, at: nat, m: nat, ents: seq<Entry>, ents2: seq<Entry>, es: seq<Entry>)
    requires f != [] && m == at + |FlattenTree(prefix, f[0])|
    requires ents2 == ents + NodesOf(prefix, f[0], at) && es == ents + Nodes(prefix, f, at)
    ensures es == ents2 + Nodes(prefix, f[1..], m)
  {
    assert Nodes(prefix, f, at) == NodesOf(prefix, f[0], at) + Nodes(prefix, f[1..], m);
    Assoc(ents, NodesOf(prefix, f[0], at), Nodes(prefix, f[1..], m));
  }

  /** What an activation does from a tree's own header to the next tree at the same depth. */
  lemma {:induction false} ParsesTree(hs: seq<Header>, at: nat, m: nat, stop: nat, prefix: string, t: Tree,
                                      d: nat, ents: seq<Entry>, parent: nat, count: nat)
    requires TreeOk(t) && Pax(at) && d == 1 + Slashes(prefix) && parent < |ents|
    requires at + 2 <= m <= |hs| && hs[at..m] == FlattenTree(prefix, t) && Pax(m)
    requires m == |hs| || (m + 1 < |hs| && FileDepth(hs[m + 1].name) <= d)
    requires stop == if m == |hs| then m else m + 1
    ensures ParseRec(hs, at + 1, d, ents, parent, count) ==
            ParseRec(hs, stop, d, ents + NodesOf(prefix, t, at), parent, count + 1)
    decreases t, 2
  {
    var ents1, es := ents + [NewEntry(HeaderOf(prefix, t), at + 1)], ents + NodesOf(prefix, t, at);
    var next := at + 2;
    AtOwnHeader(hs, at, m, prefix, t, d, ents, ents1, parent, count);
    if Kids(t) == [] {
      LeafParsed(hs, at, m, prefix, t, ents, ents1, es);
      AtFile(hs, next, stop, d, ents1, parent, count + 1);
    } else {
      DirParsed(hs, at, next, m, stop, prefix, t, d, ents, ents1, es, parent, count + 1);
    }
  }

  lemma {:induction false} DirParsed(hs: seq<Header>, at: nat, next: nat, m: nat, stop: nat, prefix: string, t: Tree,
                                     d: nat, ents: seq<Entry>, ents1: seq<Entry>, es: seq<Entry>,
                                     parent: nat, count: nat)
    requires TreeOk(t) && Kids(t) != [] && Pax(at) && next == at + 2 && d == 1 + Slashes(prefix)
    requires parent < |ents| && next <= m <= |hs| && hs[at..m] == FlattenTree(prefix, t)
    requires m == |hs| || (m + 1 < |hs| && FileDepth(hs[m + 1].name) <= d)
    requires stop == if m == |hs| then m else m + 1
    requires ents1 == ents + [NewEntry(HeaderOf(prefix, t), at + 1)] && es == ents + NodesOf(prefix, t, at)
    ensures ParseRec(hs, next, d, ents1, parent, count) == ParseRec(hs, stop, d, es, parent, count)
    decreases t, 1
  {
    KidsParsed(hs, at, m, stop, prefix, t, d, ents, ents1, es);
    assert Pax(at + 1 + 1) && |ents1| - 1 == |ents|;
    AtDirectory(hs, next, at + 3, stop, d, ents1, es, parent, count);
  }

  lemma AtOwnHeader(hs: seq<Header>, at: nat, m: nat, prefix: string, t: Tree, d: nat,
                    ents: seq<Entry>, ents1: seq<Entry>, parent: nat, count: nat)
    requires TreeOk(t) && Pax(at) && d == 1 + Slashes(prefix) && parent < |ents|
    requires at + 2 <= m <= |hs| && hs[at..m] == FlattenTree(prefix, t)
    requires ents1 == ents + [NewEntry(HeaderOf(prefix, t), at + 1)]
    ensures ParseRec(hs, at + 1, d, ents, parent, count) == ParseRec(hs, at + 2, d, ents1, parent, count + 1)
  {
    assert hs[at + 1] == hs[at..m][1] == HeaderOf(prefix, t);
    DepthOfPath(prefix, t);
    AtSibling(hs, at + 1, d, ents, parent, count);
  }

  lemma LeafParsed(hs: seq<Header>, at: nat, m: nat, prefix: string, t: Tree,
                   ents: seq<Entry>, ents1: seq<Entry>, es: seq<Entry>)
    requires TreeOk(t) && Kids(t) == [] && at <= m <= |hs| && hs[at..m] == FlattenTree(prefix, t)
    requires ents1 == ents + [NewEntry(HeaderOf(prefix, t), at + 1)] && es == ents + NodesOf(prefix, t, at)
    ensures m == at + 2 && ents1 == es
  {
    assert |hs[at..m]| == m - at == 2;
    EntryIsNode(prefix, t, at + 1);
    assert NodesOf(prefix, t, at) == [NodeOf(prefix, t, at + 1)];
  }

  lemma {:induction false} KidsParsed(hs: seq<Header>, at: nat, m: nat, stop: nat, prefix: string, t: Tree,
                                      d: nat, ents: seq<Entry>, ents1: seq<Entry>, es: seq<Entry>)
    requires TreeOk(t) && Kids(t) != [] && Pax(at) && d == 1 + Slashes(prefix)
    requires at + 2 <= m <= |hs| && hs[at..m] == FlattenTree(prefix, t)
    requires m == |hs| || (m + 1 < |hs| && FileDepth(hs[m + 1].name) <= d)
    requires stop == if m == |hs| then m else m + 1
    requires ents1 == ents + [NewEntry(HeaderOf(prefix, t), at + 1)] && es == ents + NodesOf(prefix, t, at)
    ensures at + 3 < |hs| && FileDepth(hs[at + 3].name) == d + 1
    ensures ParseRec(hs, at + 3, d + 1, ents1, |ents|, 0) == (stop, es)
    decreases t, 0
  {
    var path := PathOf(prefix, t);
    var kidsAt := at + 2;
    DepthOfPath(prefix, t);
    HoldsKids(hs, at, m, prefix, t, d);
    NextTree(hs, kidsAt, m, path, t.kids);
    ParsesForest(hs, kidsAt, stop, path, t.kids, d + 1, ents1, ents1 + Nodes(path, t.kids, kidsAt), |ents|, 0, |t.kids|);
    KidsCounted(prefix, t, at, ents, ents1);
  }

  lemma KidsCounted(prefix: string, t: Tree, at: nat, ents: seq<Entry>, ents1: seq<Entry>)
    requires TreeOk(t) && t.Dir? && t.kids != []
    requires ents1 == ents + [NewEntry(HeaderOf(prefix, t), at + 1)]
    ensures SetSub(ents1 + Nodes(PathOf(prefix, t), t.kids, at + 2), |ents|, |t.kids|)
         == ents + NodesOf(prefix, t, at)
  {
    EntryIsNode(prefix, t, at + 1);
    var kids := Nodes(PathOf(prefix, t), t.kids, at + 2);
    assert (ents1 + kids)[|ents|] == NewEntry(HeaderOf(prefix, t), at + 1);
    assert NodesOf(prefix, t, at) == [NodeOf(prefix, t, at + 1)] + kids;
  }

  /** The whole archive of a forest: every header is consumed once, and the table is the root
      followed by the entries in archive order, each non-empty directory with the number of its
      direct children. */
  lemma ParseRoundTrip(f: seq<Tree>)
    requires ForestOk(f)
    ensures var hs := Flatten("", f);
            Parse(hs) == (|hs|, [ROOT.(sub := Some(|f|))] + Nodes("", f, 0))
  {
    var hs := Flatten("", f);
    assert SetSub([ROOT] + Nodes("", f, 0), 0, |f|) == [ROOT.(sub := Some(|f|))] + Nodes("", f, 0);
    if f == [] {
      AtEnd(hs, 1, [ROOT], 0, 0);
      assert [ROOT] + Nodes("", f, 0) == [ROOT];
    } else {
      EvenLength("", f);
      assert hs[0..|hs|] == hs;
      AtPax(hs, 0, 1, [ROOT], 0, 0);
      ParsesForest(hs, 0, |hs|, "", f, 1, [ROOT], [ROOT] + Nodes("", f, 0), 0, 0, |f|);
    }
  }
}
