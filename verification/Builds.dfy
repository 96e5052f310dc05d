/**
  The checks of libfdt_internal.h compiled in or out, in any combination: on a well-formed blob two
  builds find the same and leave the same tree.
 */
module Builds {
  import opened Bytes
  import opened Tokens
  import opened Tree
  import opened Meaning
  import opened Blob
  import opened TreeWalk
  import opened Props
  import opened Effects
  import opened Rw
  import opened PropWrites
  import opened Cut
  import opened NodeEdits
  import opened AddNode
  import opened OverlayTarget
  import opened Paths
  import opened InPlace
  import opened Reserve
  import opened Packing

  /** Two copies of one blob, each handled by a build with its own mask. */
  ghost predicate Twins(f: Fdt, g: Fdt)
    reads f, f.mem, g, g.mem
  {
    f != g && f.mem != g.mem && f.hdr == g.hdr && f.mem[..] == g.mem[..] && f.Valid() && g.Valid()
  }

  lemma TwinTrees(f: Fdt, g: Fdt)
    requires Twins(f, g)
    ensures f.root == g.root && f.Strings() == g.Strings() && f.Meaning() == g.Meaning() && f.root.Node? && OkItem(f.Strings(), f.root)
    ensures f.rsv == g.rsv
  {
    hide Flat, FlatS, Enc, RsvBlock, Occurs, OkRsv;
    TreeUnique(f.hdr, f.mem[..], f.root, g.root, f.rsv, g.rsv);
    SameRsv(f.hdr, f.mem[..], f.root, f.rsv, g.rsv);
  }

  /** The bytes determine the reservations, as they do the tree. */
  lemma SameRsv(h: Header, m: bytes, root: Item, k: seq<Rsv>, l: seq<Rsv>)
    requires Wf(h, m, root, k) && Wf(h, m, root, l)
    ensures k == l
  {
    hide RsvBlock, Enc, Block;
    RsvUnique(m, h.offRsv, k, l);
  }

  /** Children by name, properties by name, phandles and paths. */
  method SameLookups(f: Fdt, g: Fdt, node: nat, name: bytes, path: bytes, phandle: nat, ghost p: seq<nat>) returns (a: seq<int>, b: seq<int>)
    requires Twins(f, g) && IsPath(f.root, p) && node == NodeOff(f.root, p) && NoNul(name)
    requires NoNul(path) && path != [] && path[0] == SLASH && phandle < TWO32
    ensures a == b && |a| == 5
  {
    hide StringsOf, Wf, NodeOff, ItemOff, Follow, FindPhandle, KidIdx, FindP, Mean, At, IsPath, DPath;
    TwinTrees(f, g);
    var a0 := SubnodeOffset(f, node, name, p);
    var b0 := SubnodeOffset(g, node, name, p);
    var a1, a2 := GetProperty(f, node, name, p);
    var b1, b2 := GetProperty(g, node, name, p);
    ghost var q, r;
    var a3, b3;
    a3, q := NodeOffsetByPhandle(f, phandle);
    b3, r := NodeOffsetByPhandle(g, phandle);
    if FindPhandle(f.Meaning(), phandle).Reached? && phandle != 0 && phandle != NO_PHANDLE {
      SamePath(f.root, q, r);
    }
    ghost var u, v;
    var a4, b4;
    a4, u := PathOffset(f, path);
    b4, v := PathOffset(g, path);
    return [a0, a1, a2, a3, a4], [b0, b1, b2, b3, b4];
  }

  /** A node of the meaning is one node of the tree. */
  lemma {:induction false} SamePath(it: Item, p: seq<nat>, q: seq<nat>)
    requires IsPath(it, p) && IsPath(it, q) && DPath(it, p) == DPath(it, q)
    ensures p == q
    decreases p
  {
    if p != [] && q != [] {
      var i, j := p[0], q[0];
      assert DPath(it, p)[0] == Meaning.Nodes(it.items[..i]) && DPath(it, q)[0] == Meaning.Nodes(it.items[..j]);
      if i < j {
        NodesRise(it.items, i, j);
      } else if j < i {
        NodesRise(it.items, j, i);
      } else {
        assert DPath(it, p)[1..] == DPath(it.items[i], p[1..]) && DPath(it, q)[1..] == DPath(it.items[i], q[1..]);
        SamePath(it.items[i], p[1..], q[1..]);
      }
    }
  }

  lemma {:induction false} NodesRise(its: seq<Item>, i: nat, j: nat)
    requires i < j <= |its| && its[i].Node?
    ensures Meaning.Nodes(its[..i]) < Meaning.Nodes(its[..j])
    decreases i
  {
    assert its[..j][1..] == its[1..][..j - 1];
    if i > 0 {
      assert its[..i][1..] == its[1..][..i - 1];
      NodesRise(its[1..], i - 1, j - 1);
    }
  }

  method SameSetProp(f: Fdt, g: Fdt, node: nat, name: bytes, val: bytes, ghost p: seq<nat>) returns (a: int, b: int)
    requires Twins(f, g) && IsPath(f.root, p) && node == NodeOff(f.root, p) && NoNul(name) && |val| < MAX_VALUE
    modifies f, f.mem, g, g.mem
    ensures a == b && f.Valid() && g.Valid() && f.Meaning() == g.Meaning()
  {
    hide StringsOf, Wf, NodeOff, Mean, At, IsPath, DPath, DPut, SetP, SetCost, Edited;
    TwinTrees(f, g);
    a := SetProp(f, node, name, val, p);
    b := SetProp(g, node, name, val, p);
  }

  method SameAppendProp(f: Fdt, g: Fdt, node: nat, name: bytes, val: bytes, ghost p: seq<nat>) returns (a: int, b: int)
    requires Twins(f, g) && IsPath(f.root, p) && node == NodeOff(f.root, p) && NoNul(name)
    requires |val| + |ValueOf(f.Strings(), At(f.root, p).items, name)| < MAX_VALUE
    modifies f, f.mem, g, g.mem
    ensures a == b && f.Valid() && g.Valid() && f.Meaning() == g.Meaning()
  {
    hide StringsOf, Wf, NodeOff, Mean, At, IsPath, DPath, DPut, AppendP, SetCost, ValueOf, Edited;
    TwinTrees(f, g);
    a := AppendProp(f, node, name, val, p);
    b := AppendProp(g, node, name, val, p);
  }

  method SameDelProp(f: Fdt, g: Fdt, node: nat, name: bytes, ghost p: seq<nat>) returns (a: int, b: int)
    requires Twins(f, g) && IsPath(f.root, p) && node == NodeOff(f.root, p) && NoNul(name)
    modifies f, f.mem, g, g.mem
    ensures a == b && f.Valid() && g.Valid() && f.Meaning() == g.Meaning()
  {
    hide StringsOf, Wf, NodeOff, Mean, At, IsPath, DPath, DPut, DelP, FindD, Edited;
    TwinTrees(f, g);
    a := DelProp(f, node, name, p);
    b := DelProp(g, node, name, p);
  }

  method SameAddSubnode(f: Fdt, g: Fdt, parent: nat, name: bytes, ghost p: seq<nat>) returns (a: int, b: int)
    requires Twins(f, g) && IsPath(f.root, p) && parent == NodeOff(f.root, p) && NoNul(name) && |name| < MAX_VALUE
    modifies f, f.mem, g, g.mem
    ensures a == b && f.Valid() && g.Valid() && f.Meaning() == g.Meaning()
  {
    hide StringsOf, Wf, NodeOff, ItemOff, Mean, At, IsPath, DPath, DPut, KidIdx, Edited, NewNode, InsertedOnly, NodeBecame, AddKid, Put;
    TwinTrees(f, g);
    a := AddSubnode(f, parent, name, p);
    b := AddSubnode(g, parent, name, p);
  }

  method SameDelNode(f: Fdt, g: Fdt, node: nat, ghost p: seq<nat>, ghost k: nat) returns (a: int, b: int)
    requires Twins(f, g) && IsPath(f.root, p) && k < |At(f.root, p).items| && At(f.root, p).items[k].Node? && node == ItemOff(f.root, p, k)
    modifies f, f.mem, g, g.mem
    ensures a == b && f.Valid() && g.Valid() && f.Meaning() == g.Meaning()
  {
    hide StringsOf, Wf, ItemOff, Mean, At, IsPath, DPath, DPut, Edited, SplicedOnly, NodeBecame, Put, Enc, FlatS;
    TwinTrees(f, g);
    a := DelNode(f, node, p, k);
    b := DelNode(g, node, p, k);
  }

  method SameNopProperty(f: Fdt, g: Fdt, node: nat, name: bytes, ghost p: seq<nat>) returns (a: int, b: int)
    requires Twins(f, g) && IsPath(f.root, p) && node == NodeOff(f.root, p) && NoNul(name)
    modifies f, f.mem, g, g.mem
    ensures a == b && f.Valid() && g.Valid() && f.Meaning() == g.Meaning()
  {
    hide StringsOf, Wf, NodeOff, Mean, At, IsPath, DPath, DPut, DelP, FindD, Edited, NoppedOut;
    TwinTrees(f, g);
    a := NopProperty(f, node, name, p);
    b := NopProperty(g, node, name, p);
  }

  method SameNopNode(f: Fdt, g: Fdt, node: nat, ghost p: seq<nat>, ghost k: nat) returns (a: int, b: int)
    requires Twins(f, g) && IsPath(f.root, p) && k < |At(f.root, p).items| && At(f.root, p).items[k].Node? && node == ItemOff(f.root, p, k)
    modifies f, f.mem, g, g.mem
    ensures a == b && f.Valid() && g.Valid() && f.Meaning() == g.Meaning()
  {
    hide StringsOf, Wf, ItemOff, Mean, At, IsPath, DPath, DPut, Edited, NoppedOut, Put, Enc, FlatS;
    TwinTrees(f, g);
    a := NopNode(f, node, p, k);
    b := NopNode(g, node, p, k);
  }

  method SameSetPropInPlace(f: Fdt, g: Fdt, node: nat, name: bytes, val: bytes, ghost p: seq<nat>) returns (a: int, b: int)
    requires Twins(f, g) && IsPath(f.root, p) && node == NodeOff(f.root, p) && NoNul(name) && |val| < 0x8000_0000
    modifies f, f.mem, g, g.mem
    ensures a == b && f.Valid() && g.Valid() && f.Meaning() == g.Meaning()
  {
    hide StringsOf, Wf, NodeOff, Mean, At, IsPath, DPath, DPut, SetP, Edited, SameShape, Put, SameNodes;
    TwinTrees(f, g);
    a := SetPropInPlace(f, node, name, val, p);
    b := SetPropInPlace(g, node, name, val, p);
  }

  /** An entry added and one deleted. */
  method SameReservations(f: Fdt, g: Fdt, address: nat, size: nat, n: nat) returns (a: seq<int>, b: seq<int>)
    requires Twins(f, g) && address < TWO64 && 0 < size < TWO64
    modifies f, f.mem, g, g.mem
    ensures a == b && |a| == 2 && f.Valid() && g.Valid() && f.rsv == g.rsv && f.Meaning() == g.Meaning()
  {
    hide StringsOf, Wf, Mean;
    TwinTrees(f, g);
    var a0 := AddMemRsv(f, address, size);
    var b0 := AddMemRsv(g, address, size);
    var a1 := DelMemRsv(f, n);
    var b1 := DelMemRsv(g, n);
    return [a0, a1], [b0, b1];
  }

  /** Number and entries of the reservation list, terminator included. */
  method SameReserved(f: Fdt, g: Fdt, n: nat) returns (a: seq<int>, b: seq<int>)
    requires Twins(f, g) && n <= |f.rsv|
    ensures a == b && |a| == 4
  {
    hide StringsOf, Wf, Mean;
    TwinTrees(f, g);
    WfRsv(f.hdr, f.mem[..], f.root, f.rsv);
    WfRsv(g.hdr, g.mem[..], g.root, g.rsv);
    var a0, a1, a2 := GetMemRsv(f, n);
    var b0, b1, b2 := GetMemRsv(g, n);
    var a3 := NumMemRsv(f.mem, 0, f.hdr, f.ChkExtra(), f.rsv);
    var b3 := NumMemRsv(g.mem, 0, g.hdr, g.ChkExtra(), g.rsv);
    return [a0, a1, a2, a3], [b0, b1, b2, b3];
  }

  /** Depth, parent and ancestors of a node. */
  method SameAncestors(f: Fdt, g: Fdt, node: nat, depth: nat, ghost p: seq<nat>) returns (a: seq<int>, b: seq<int>)
    requires Twins(f, g) && IsPath(f.root, p) && node == NodeOff(f.root, p)
    ensures a == b && |a| == 4
  {
    hide StringsOf, Wf, NodeOff, Mean, IsPath;
    TwinTrees(f, g);
    var a0, a1 := SupernodeAtDepth(f, node, depth, p);
    var b0, b1 := SupernodeAtDepth(g, node, depth, p);
    var a2 := NodeDepth(f, node, p);
    var b2 := NodeDepth(g, node, p);
    var a3 := ParentOffset(f, node, p);
    var b3 := ParentOffset(g, node, p);
    return [a0, a1, a2, a3], [b0, b1, b2, b3];
  }

  /** The path of a node, and the bytes of it in each buffer. */
  method SameGetPath(f: Fdt, g: Fdt, node: nat, buf: array<byte>, buf': array<byte>, buflen: nat, ghost p: seq<nat>) returns (a: int, b: int)
    requires Twins(f, g) && IsPath(f.root, p) && node == NodeOff(f.root, p) && SlashFree(Block(f.root))
    requires buf != buf' && buf !in {f.mem, g.mem} && buf' !in {f.mem, g.mem} && buflen <= buf.Length && buflen <= buf'.Length
    modifies buf, buf'
    ensures a == b && Begins(Block(f.root), NodePath(f.root, p))
    ensures var n := |PathString(Block(f.root), NodePath(f.root, p))| + 1;
      a == 0 ==> n <= buflen && buf[..n] == buf'[..n]
  {
    hide StringsOf, Wf, NodeOff, Mean, IsPath, Block, PathString, NodePath, Begins, SlashFree;
    TwinTrees(f, g);
    a := GetPath(f, node, buf, buflen, p);
    b := GetPath(g, node, buf', buflen, p);
  }

  /** Packed, the two copies have the same header and the same contents. */
  method SamePack(f: Fdt, g: Fdt) returns (a: int, b: int)
    requires Twins(f, g)
    modifies f, f.mem, g, g.mem
    ensures a == b && f.Valid() && g.Valid() && f.hdr == g.hdr && f.rsv == g.rsv && f.Meaning() == g.Meaning()
    ensures var n := f.hdr.totalsize; HEADER_SIZE <= n <= f.mem.Length && n <= g.mem.Length && f.mem[HEADER_SIZE..n] == g.mem[HEADER_SIZE..n]
  {
    hide StringsOf, Wf, Mean, RsvBlock, PackedHdr, IsPacked, PackedSize;
    TwinTrees(f, g);
    ghost var root, l := f.root, f.rsv;
    a := Pack(f);
    b := Pack(g);
    WfRsv(f.hdr, f.mem[..], root, l);
    WfRsv(g.hdr, g.mem[..], root, l);
    PackedSame(f.hdr, f.mem[..], g.mem[..], root, l);
  }

  lemma PackedSame(h: Header, m: bytes, m': bytes, root: Item, l: seq<Rsv>)
    requires Wf(h, m, root, l) && Wf(h, m', root, l) && StringsOf(h, m) == StringsOf(h, m') && IsPacked(h, |RsvBlock(l)|)
    ensures HEADER_SIZE <= h.totalsize <= |m| && h.totalsize <= |m'| && m[HEADER_SIZE..h.totalsize] == m'[HEADER_SIZE..h.totalsize]
  {
    hide Enc, Block, RsvBlock, OkItem, StringsOf;
    PackedBytes(h, m, m', root, l);
  }
}
