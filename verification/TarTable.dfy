/** From the archive in memory to the table of nodes: every real header becomes one entry, in
    archive order, and the payloads lie one after the other. */
module TarTable {
  import opened Basics
  import opened TarParse

  // ---- where the headers are ----

  /** `n` rounded up to whole header blocks. */
  function AlignUp(n: nat): (r: nat)
    ensures r % HEADER_SIZE == 0 && n <= r < n + HEADER_SIZE
  {
    n - n % HEADER_SIZE + if n % HEADER_SIZE != 0 then HEADER_SIZE else 0
  }

  /** `addrs` are the addresses of the headers `hs`, and of the end of the archive. */
  predicate Spaced(addrs: seq<nat>, hs: seq<Header>) {
    && |addrs| == |hs| + 1
    && forall k {:trigger hs[k]} :: 0 <= k < |hs| ==> addrs[k + 1] == addrs[k] + AlignUp(HEADER_SIZE + hs[k].size)
  }

  /** The headers lie in memory at `addrs`, and an empty name ends the archive. */
  predicate Laid(mem: map<nat, Header>, addrs: seq<nat>, hs: seq<Header>) {
    && Spaced(addrs, hs)
    && (forall k :: 0 <= k < |hs| ==> addrs[k] in mem && hs[k].name != "" && mem[addrs[k]] == hs[k])
    && addrs[|hs|] in mem && mem[addrs[|hs|]].name == ""
  }

  lemma {:induction false} HeadersIncrease(addrs: seq<nat>, hs: seq<Header>, j: nat, k: nat)
    requires Spaced(addrs, hs) && j < k <= |hs|
    ensures addrs[j] + HEADER_SIZE + hs[j].size <= addrs[k]
  {
    assert hs[k - 1].size >= 0;
    if j < k - 1 {
      HeadersIncrease(addrs, hs, j, k - 1);
    }
  }

  // ---- every archive, whatever its shape ----

  /** `ents` is the root followed by one entry for each real header before header `pos`. */
  predicate Tabled(hs: seq<Header>, ents: seq<Entry>, pos: nat) {
    && pos <= |hs| && |ents| == 1 + pos / 2
    && ents[0].(sub := None) == ROOT
    && forall k :: 1 <= k < |ents| ==> IsEntryOf(ents[k], hs[2 * k - 1], 2 * k - 1)
  }

  predicate IsEntryOf(e: Entry, h: Header, at: nat) {
    e.(sub := None) == NewEntry(h, at).(sub := None)
  }

  lemma TabledSetSub(hs: seq<Header>, ents: seq<Entry>, pos: nat, parent: nat, count: nat)
    requires Tabled(hs, ents, pos) && parent < |ents|
    ensures Tabled(hs, SetSub(ents, parent, count), pos)
  {
  }

  lemma TabledAdd(hs: seq<Header>, ents: seq<Entry>, pos: nat)
    requires Tabled(hs, ents, pos) && pos < |hs| && !Pax(pos)
    ensures Tabled(hs, ents + [NewEntry(hs[pos], pos)], pos + 1)
  {
    var es := ents + [NewEntry(hs[pos], pos)];
    PaxIsEven(pos);
    assert forall k :: 1 <= k < |ents| ==> es[k] == ents[k];
  }

  /** Every header an activation passes is entered in the table, whatever order the archive has;
      it stops only at the end or at a shallower entry. */
  lemma {:induction false} ParseTables(hs: seq<Header>, pos: nat, depth: nat, ents: seq<Entry>,
                                       parent: nat, count: nat)
    requires Tabled(hs, ents, pos) && parent < |ents|
    ensures var r := ParseRec(hs, pos, depth, ents, parent, count);
            && Tabled(hs, r.1, r.0)
            && (r.0 == |hs| || FileDepth(hs[r.0].name) < depth)
    decreases |hs| - pos, if pos < |hs| && FileDepth(hs[pos].name) == depth then 0 else 1
  {
    if pos == |hs| {
      TabledSetSub(hs, ents, pos, parent, count);
    } else if Pax(pos) {
      PaxIsEven(pos);
      ParseTables(hs, pos + 1, depth, ents, parent, count);
    } else {
      var d := FileDepth(hs[pos].name);
      if d > depth {
        ParseTables(hs, pos, d, ents, |ents| - 1, 0);
        var (p, es) := ParseRec(hs, pos, d, ents, |ents| - 1, 0);
        ParseTables(hs, p, depth, es, parent, count);
      } else if d < depth {
        TabledSetSub(hs, ents, pos, parent, count);
      } else {
        TabledAdd(hs, ents, pos);
        ParseTables(hs, pos + 1, depth, ents + [NewEntry(hs[pos], pos)], parent, count + 1);
      }
    }
  }

  /** The parse of any archive reads it to the end and enters each real header exactly once, in
      archive order. */
  lemma ParseConsumesAll(hs: seq<Header>)
    ensures Parse(hs).0 == |hs| && Tabled(hs, Parse(hs).1, |hs|)
  {
    ParseTables(hs, 0, 1, [ROOT], 0, 0);
  }

  // ---- nodes ----

  /** A node of the table as the source stores it, by addresses. */
  datatype Node = Node(header: nat, data: nat, size: nat, isDir: bool, sub: Option<nat>)

  /** `rootHeader` is the address of the root's made-up header; the root has no payload. */
  function Place(addrs: seq<nat>, rootHeader: nat, e: Entry): Node
    requires e.at < |addrs|
  {
    if e.at == 0 then Node(rootHeader, 0, 0, true, e.sub)
    else var a := addrs[e.at]; Node(a, a + HEADER_SIZE, e.size, e.isDir, e.sub)
  }

  /** `n` stands for header `h` at address `a`: its payload follows the header and has the header's
      size, and it is a directory if the name ends in a slash. */
  predicate NodeIs(n: Node, a: nat, h: Header) {
    && n.header == a && n.data == a + HEADER_SIZE && n.size == h.size
    && (n.isDir <==> h.name != "" && h.name[|h.name| - 1] == '/')
  }

  /** Whatever the archive, node `k` of its list stands for the `k`-th real header. */
  lemma PlacedNode(addrs: seq<nat>, hs: seq<Header>, root: nat, k: nat)
    requires |addrs| == |hs| + 1 && 1 <= k < |Parse(hs).1|
    ensures 2 * k - 1 < |hs| && Parse(hs).1[k].at == 2 * k - 1
    ensures NodeIs(Place(addrs, root, Parse(hs).1[k]), addrs[2 * k - 1], hs[2 * k - 1])
  {
    ParseConsumesAll(hs);
    assert IsEntryOf(Parse(hs).1[k], hs[2 * k - 1], 2 * k - 1);
  }

  /** Whatever the archive, the payloads of two entries are disjoint, the earlier entry's below
      the later one's header, and each payload starts right after its own header. */
  lemma PayloadsApart(addrs: seq<nat>, hs: seq<Header>, root: nat, i: nat, j: nat)
    requires Spaced(addrs, hs) && 1 <= i < j < |Parse(hs).1|
    ensures var es := Parse(hs).1;
            && es[i].at < |addrs| && es[j].at < |addrs|
            && var a, b := Place(addrs, root, es[i]), Place(addrs, root, es[j]);
               && a.data == a.header + HEADER_SIZE && b.data == b.header + HEADER_SIZE
               && a.data + a.size <= b.header
  {
    ParseConsumesAll(hs);
    var es := Parse(hs).1;
    assert IsEntryOf(es[i], hs[2 * i - 1], 2 * i - 1);
    assert IsEntryOf(es[j], hs[2 * j - 1], 2 * j - 1);
    HeadersIncrease(addrs, hs, 2 * i - 1, 2 * j - 1);
  }

  // ---- the parser itself ----

  function PlaceAll(addrs: seq<nat>, root: nat, es: seq<Entry>): seq<Node>
    requires forall k :: 0 <= k < |es| ==> es[k].at < |addrs|
  {
    seq(|es|, k requires 0 <= k < |es| => Place(addrs, root, es[k]))
  }

  lemma Parity(i: nat, pos: nat)
    requires i == pos + 2
    ensures Pax(pos) <==> i % 2 == 0
  {
    PaxIsEven(pos);
  }

  /** The parser's variables. `list` holds the entries oldest first: the source's list head is its
      last element, and each entry's `next` is the element before it. The ghost fields name the
      archive and the abstract entries. */
  class Parser {
    const mem: map<nat, Header>
    const root: nat
    var list: seq<Node>
    var nextAddr: nat
    var i: nat

    ghost const addrs: seq<nat>
    ghost const hs: seq<Header>
    ghost var ents: seq<Entry>

    ghost function Pos(): int
      reads this
    {
      i - 2
    }

    ghost predicate Valid()
      reads this
    {
      && Laid(mem, addrs, hs)
      && 0 <= Pos() <= |hs| && nextAddr == addrs[Pos()]
      && (forall k :: 0 <= k < |ents| ==> ents[k].at < |addrs|)
      && list == PlaceAll(addrs, root, ents) && list != []
    }

    constructor (mem: map<nat, Header>, start: nat, root: nat, ghost addrs: seq<nat>, ghost hs: seq<Header>)
      requires Laid(mem, addrs, hs) && start == addrs[0]
      ensures Valid() && Pos() == 0 && ents == [ROOT]
      ensures this.addrs == addrs && this.hs == hs && this.root == root
    {
      this.mem, this.root, nextAddr, i := mem, root, start, 2;
      list := [Node(root, 0, 0, true, None)];
      this.addrs, this.hs, ents := addrs, hs, [ROOT];
    }

    /** Enters a real header of the activation's depth in the list, and moves the cursor past the
        header, real or extended, and its payload. */
    method PassHeader(header: Header, parent: nat, depth: nat, count: nat) returns (count': nat)
      requires Valid() && Pos() < |hs| && header == hs[Pos()] && parent < |ents|
      requires i % 2 != 0 ==> FileDepth(header.name) == depth
      modifies this
      ensures Valid() && Pos() == old(Pos()) + 1 && parent < |ents|
      ensures ParseRec(hs, Pos(), depth, ents, parent, count') ==
              old(ParseRec(hs, Pos(), depth, ents, parent, count))
    {
      count' := count;
      ghost var pos, es := Pos(), ents;
      Parity(i, pos);
      if i % 2 != 0 {
        AtSibling(hs, pos, depth, es, parent, count);
        count' := count + 1;
        AddEntry(header);
      } else {
        AtPax(hs, pos, depth, es, parent, count);
      }
      Advance(header.size);
    }

    method Advance(size: nat)
      requires Valid() && Pos() < |hs| && size == hs[Pos()].size
      modifies this`nextAddr, this`i
      ensures Valid() && Pos() == old(Pos()) + 1
    {
      nextAddr := nextAddr + AlignUp(HEADER_SIZE + size);
      i := i + 1;
    }

    method AddEntry(header: Header)
      requires Valid() && 0 < Pos() < |hs| && header == hs[Pos()]
      modifies this`list, this`ents
      ensures Valid() && ents == old(ents) + [NewEntry(hs[Pos()], Pos())]
    {
      var isDir := header.name[|header.name| - 1] == '/';
      var e := NewEntry(header, Pos());
      list := list + [Node(nextAddr, nextAddr + HEADER_SIZE, header.size, isDir, if isDir then None else Some(0))];
      assert list[|ents|] == Place(addrs, root, e);
      ents := ents + [e];
    }

    method SetSubEntNum(parent: nat, count: nat)
      requires Valid() && parent < |ents|
      modifies this`list, this`ents
      ensures Valid() && ents == SetSub(old(ents), parent, count)
    {
      list := list[parent := list[parent].(sub := Some(count))];
      ents := SetSub(ents, parent, count);
    }

    /** An activation whose next header is at its own depth moves on at once; any other may first
        start a nested one. */
    ghost function Rank(depth: nat): nat
      reads this
    {
      if 0 <= Pos() < |hs| && FileDepth(hs[Pos()].name) == depth then 0 else 2
    }

    /** Parses what lies under the newest entry. */
    method Descend(d: nat, parent: nat, depth: nat, count: nat)
      requires Valid() && Pos() < |hs| && parent < |ents|
      requires !Pax(Pos()) && FileDepth(hs[Pos()].name) == d > depth
      modifies this
      ensures Valid() && Pos() > old(Pos()) && parent < |ents|
      ensures ParseRec(hs, Pos(), depth, ents, parent, count) ==
              old(ParseRec(hs, Pos(), depth, ents, parent, count))
      decreases |hs| - Pos(), 1
    {
      ghost var pos, es := Pos(), ents;
      TarParseRec(|list| - 1, d);
      assert ParseRec(hs, pos, d, es, |es| - 1, 0) == (Pos(), ents);
      AtDeeper(hs, pos, depth, es, parent, count, d, Pos(), ents);
    }

    method TarParseRec(parent: nat, depth: nat)
      requires Valid() && parent < |ents|
      modifies this
      ensures Valid()
      ensures (Pos(), ents) == ParseRec(hs, old(Pos()), depth, old(ents), parent, 0)
      decreases |hs| - Pos(), Rank(depth)
    {
      var count := 0;
      ghost var result := ParseRec(hs, Pos(), depth, ents, parent, 0);
      while mem[nextAddr].name != ""
        invariant Valid() && parent < |ents| && old(Pos()) <= Pos()
        invariant ParseRec(hs, Pos(), depth, ents, parent, count) == result
        decreases |hs| - Pos()
      {
        var header := mem[nextAddr];
        Parity(i, Pos());
        if i % 2 != 0 {
          var d := GetFileDepth(header.name);
          if d > depth {
            Descend(d, parent, depth, count);
            continue;
          } else if d < depth {
            AtShallower(hs, Pos(), depth, ents, parent, count);
            break;
          }
        }
        count := PassHeader(header, parent, depth, count);
      }
      AtEnd(hs, depth, ents, parent, count);
      SetSubEntNum(parent, count);
    }
  }

  lemma TableLength(hs: seq<Header>, i: nat)
    requires i == |hs| + 2
    ensures i / 2 == |Parse(hs).1|
  {
    ParseConsumesAll(hs);
  }

  /** The whole parse: `num` is the number of entries, root included, and `size` the distance the
      archive extends over. */
  method ParseArchive(mem: map<nat, Header>, start: nat, root: nat, ghost addrs: seq<nat>, ghost hs: seq<Header>)
    returns (list: seq<Node>, num: nat, size: int)
    requires Laid(mem, addrs, hs) && start == addrs[0]
    ensures forall k :: 0 <= k < |Parse(hs).1| ==> Parse(hs).1[k].at < |addrs|
    ensures list == PlaceAll(addrs, root, Parse(hs).1) && num == |list|
    ensures |list| == 1 + |hs| / 2
    ensures forall k :: 1 <= k < |list| ==> NodeIs(list[k], addrs[2 * k - 1], hs[2 * k - 1])
    ensures start + size == addrs[|hs|]
  {
    var parser := new Parser(mem, start, root, addrs, hs);
    parser.TarParseRec(0, 1);
    ParseConsumesAll(hs);
    TableLength(hs, parser.i);
    forall k | 1 <= k < |Parse(hs).1| ensures NodeIs(Place(addrs, root, Parse(hs).1[k]), addrs[2 * k - 1], hs[2 * k - 1]) {
      PlacedNode(addrs, hs, root, k);
    }
    list, num, size := parser.list, parser.i / 2, parser.nextAddr - start;
  }

  /** Fills the table from its end while walking the list from its newest entry; the oldest entry
      wanted is recognised by the index, so whatever follows it is never looked at. */
  method BuildTree(list: seq<Node>, rdLen: nat) returns (nodes: array<Node>)
    requires 1 <= rdLen <= |list|
    ensures nodes[..] == list[|list| - rdLen..]
  {
    nodes := new Node[rdLen](_ => list[0]);
    var i := rdLen;
    var ent := |list| - 1;
    while ent >= 0
      invariant 1 <= i <= rdLen && ent == |list| - rdLen + i - 1
      invariant nodes[i..] == list[ent + 1..]
      decreases i
    {
      nodes[i - 1] := list[ent];
      assert nodes[i - 1..] == [list[ent]] + nodes[i..];
      if i == 1 {
        break;
      }
      i := i - 1;
      ent := ent - 1;
    }
    assert nodes[0..] == nodes[..];
  }
}
