/** Base names of archive entries, and the table of nodes that is mounted. */
module TarLookup {
  import opened Basics
  import opened TarParse
  import opened TarListing
  import opened TarTable

  // ---- base names ----

  /** Where the last component starts, looking back from `k`. */
  function BaseStart(name: string, k: nat): (o: nat)
    requires k <= |name|
    ensures o <= k
  {
    if k == 0 then 0 else if name[k - 1] == '/' then k else BaseStart(name, k - 1)
  }

  function Basename(name: string): string
    requires name != ""
  {
    var last := |name| - 1;
    var o := BaseStart(name, last);
    if o != last && name[last] == '/' then name[o..last] else name[o..]
  }

  method ParseFileBasename(fname: string) returns (offset: nat, len: nat)
    requires fname != ""
    ensures offset <= len <= |fname| && fname[offset..len] == Basename(fname)
  {
    offset, len := |fname| - 1, |fname|;
    while offset > 0
      invariant offset <= |fname| - 1 && BaseStart(fname, offset) == BaseStart(fname, |fname| - 1)
    {
      offset := offset - 1;
      if fname[offset] == '/' {
        offset := offset + 1;
        break;
      }
    }
    if offset != len - 1 && fname[len - 1] == '/' {
      len := len - 1;
    }
  }

  lemma {:induction false} NoSlashAt(s: string, k: nat)
    requires k < |s| && Slashes(s) == 0
    ensures s[k] != '/'
    decreases |s|
  {
    if k < |s| - 1 {
      NoSlashAt(s[..|s| - 1], k);
    }
  }

  lemma {:induction false} BaseStartAfter(path: string, o: nat, k: nat)
    requires o <= k <= |path| && (o == 0 || path[o - 1] == '/')
    requires forall j :: o <= j < k ==> path[j] != '/'
    ensures BaseStart(path, k) == o
  {
    if k > o {
      BaseStartAfter(path, o, k - 1);
    }
  }

  predicate PrefixOk(prefix: string) {
    prefix == "" || prefix[|prefix| - 1] == '/'
  }

  /** The base name of an entry is the name of its node, for files and directories. */
  lemma BasenameOfPath(prefix: string, t: Tree)
    requires PrefixOk(prefix) && NameOk(t.name)
    ensures PathOf(prefix, t) != "" && Basename(PathOf(prefix, t)) == t.name
  {
    var path, o := PathOf(prefix, t), |prefix|;
    var last := |path| - 1;
    PathChars(prefix, t, path);
    assert o == 0 || path[o - 1] == prefix[o - 1];
    BaseStartAfter(path, o, last);
    assert path[o..o + |t.name|] == t.name;
  }

  lemma PathChars(prefix: string, t: Tree, path: string)
    requires NameOk(t.name) && path == PathOf(prefix, t)
    ensures |path| == |prefix| + |t.name| + if t.Dir? then 1 else 0
    ensures forall j :: |prefix| <= j < |prefix| + |t.name| ==> path[j] != '/'
    ensures t.Dir? ==> path[|path| - 1] == '/'
  {
    forall j | |prefix| <= j < |prefix| + |t.name| ensures path[j] != '/' {
      assert path[j] == t.name[j - |prefix|];
      NoSlashAt(t.name, j - |prefix|);
    }
  }

  // ---- the mounted tree ----

  function SubNum(e: Entry): nat {
    if e.sub.Some? then e.sub.value else 0
  }

  function FsOf(e: Entry): FsNode {
    FsNode(if e.name == "" then "" else Basename(e.name), e.isDir, e.size, SubNum(e))
  }

  function MapFs(es: seq<Entry>): (r: seq<FsNode>)
    ensures |r| == |es|
  {
    seq(|es|, i requires 0 <= i < |es| => FsOf(es[i]))
  }

  method BuildFs(es: seq<Entry>) returns (fs: seq<FsNode>)
    requires forall i :: 0 <= i < |es| ==> es[i].name != ""
    ensures fs == MapFs(es)
  {
    fs := [];
    for i := 0 to |es|
      invariant |fs| == i && forall j :: 0 <= j < i ==> fs[j] == FsOf(es[j])
    {
      var offset, len := ParseFileBasename(es[i].name);
      fs := fs + [FsNode(es[i].name[offset..len], es[i].isDir, es[i].size, SubNum(es[i]))];
    }
  }

  lemma MapFsAppend(a: seq<Entry>, b: seq<Entry>)
    ensures MapFs(a + b) == MapFs(a) + MapFs(b)
  {
  }

  lemma FsOfNode(prefix: string, t: Tree, at: nat)
    requires PrefixOk(prefix) && TreeOk(t)
    ensures MapFs([NodeOf(prefix, t, at)]) == [NodeAt(t)]
  {
    BasenameOfPath(prefix, t);
  }

  lemma {:induction false} FsOfNodes(prefix: string, f: seq<Tree>, at: nat)
    requires PrefixOk(prefix) && ForestOk(f)
    ensures MapFs(Nodes(prefix, f, at)) == FsForest(f)
    decreases f
  {
    if f != [] {
      var next := at + |FlattenTree(prefix, f[0])|;
      assert TreeOk(f[0]) && ForestOk(f[1..]);
      FsOfTree(prefix, f[0], at);
      FsOfNodes(prefix, f[1..], next);
      FsJoin(NodesOf(prefix, f[0], at), Nodes(prefix, f[1..], next), Nodes(prefix, f, at),
             FsTree(f[0]), FsForest(f[1..]));
    }
  }

  lemma FsJoin(a: seq<Entry>, b: seq<Entry>, ab: seq<Entry>, x: seq<FsNode>, y: seq<FsNode>)
    requires ab == a + b && MapFs(a) == x && MapFs(b) == y
    ensures MapFs(ab) == x + y
  {
    MapFsAppend(a, b);
  }

  lemma {:induction false} FsOfTree(prefix: string, t: Tree, at: nat)
    requires PrefixOk(prefix) && TreeOk(t)
    ensures MapFs(NodesOf(prefix, t, at)) == FsTree(t)
    decreases t, 0
  {
    FsOfNode(prefix, t, at + 1);
    if t.Dir? {
      var path := PathOf(prefix, t);
      FsOfNodes(path, t.kids, at + 2);
      MapFsAppend([NodeOf(prefix, t, at + 1)], Nodes(path, t.kids, at + 2));
    }
  }

  /** Parsing the archive of a forest and naming its entries gives the forest's table. */
  lemma MountedTable(f: seq<Tree>)
    requires ForestOk(f)
    ensures MapFs(Parse(Flatten("", f)).1) == Table(f)
  {
    ParseRoundTrip(f);
    var root := ROOT.(sub := Some(|f|));
    FsOfNodes("", f, 0);
    MapFsAppend([root], Nodes("", f, 0));
    assert MapFs([root]) == [FsOf(root)];
    assert Basename("/") == "/";
  }

  /** What the stored node says of a tree node. */
  predicate Describes(n: Node, t: FsNode) {
    n.isDir == t.isDir && n.size == t.size && t.sub == if n.sub.Some? then n.sub.value else 0
  }

  /** The list parsed from the archive of a forest describes the forest's nodes in pre-order: kind,
      size and number of children. */
  lemma ArchiveNodes(f: seq<Tree>, addrs: seq<nat>, root: nat, es: seq<Entry>, list: seq<Node>)
    requires ForestOk(f) && es == Parse(Flatten("", f)).1 && |addrs| == |Flatten("", f)| + 1
    requires forall k :: 0 <= k < |es| ==> es[k].at < |addrs|
    requires list == PlaceAll(addrs, root, es)
    ensures |list| == |Table(f)| && forall k :: 0 <= k < |list| ==> Describes(list[k], Table(f)[k])
  {
    MountedTable(f);
    ParseConsumesAll(Flatten("", f));
    forall k | 0 <= k < |list| ensures Describes(list[k], Table(f)[k]) {
      assert MapFs(es)[k] == FsOf(es[k]);
      if k > 0 {
        assert IsEntryOf(es[k], Flatten("", f)[2 * k - 1], 2 * k - 1);
      }
    }
  }
}
