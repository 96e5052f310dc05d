/**
  fdt_ro.c: scans that keep track of where they are - fdt_supernode_atdepth_offset, fdt_node_depth,
  fdt_parent_offset, fdt_get_path - and fdt_path_offset, which undoes fdt_get_path.
 */
module Paths {
  import opened Bytes
  import opened Tokens
  import opened Tree
  import opened Blob
  import opened Scan
  import opened Walk
  import opened TreeWalk
  import opened Props
  import opened AddNode

  const SLASH: byte := '/' as int

  // ------------------------------------------------------------------ open nodes

  /** The BEGIN_NODE tokens still open before token k, outermost first. */
  function Stack(ts: seq<Tok>, k: nat): (r: seq<nat>)
    requires k <= |ts|
    ensures forall i :: 0 <= i < |r| ==> r[i] < k && ts[r[i]].TBegin?
  {
    if k == 0 then []
    else
      var s := Stack(ts, k - 1);
      match ts[k - 1]
      case TBegin(_, _) => s + [k - 1]
      case TEnd => if s == [] then [] else s[..|s| - 1]
      case _ => s
  }

  lemma StackNext(ts: seq<Tok>, k: nat)
    requires k < |ts|
    ensures var s := Stack(ts, k); Stack(ts, k + 1) == match ts[k]
      case TBegin(_, _) => s + [k]
      case TEnd => if s == [] then [] else s[..|s| - 1]
      case _ => s
  {
  }

  /** From token a to token e the stack never drops below what it is at a, and nothing ends the block. */
  ghost predicate Above(ts: seq<Tok>, a: nat, e: nat) {
    && a <= e <= |ts|
    && (forall k :: a <= k <= e ==> |Stack(ts, k)| >= |Stack(ts, a)|)
    && (forall k :: a <= k < e ==> !ts[k].TFin?)
  }

  lemma AboveCat(ts: seq<Tok>, a: nat, b: nat, e: nat)
    requires Above(ts, a, b) && Above(ts, b, e)
    ensures Above(ts, a, e)
  {
    hide Stack;
    assert |Stack(ts, b)| >= |Stack(ts, a)|;
  }

  lemma AboveToken(ts: seq<Tok>, a: nat)
    requires a < |ts| && !ts[a].TEnd? && !ts[a].TFin?
    ensures Above(ts, a, a + 1)
  {
  }

  /** An END_NODE takes back the node that was opened. */
  lemma AboveEnd(ts: seq<Tok>, a: nat, b: nat)
    requires Above(ts, a, b) && b < |ts| && ts[b].TEnd? && |Stack(ts, b)| > |Stack(ts, a)|
    ensures Above(ts, a, b + 1) && |Stack(ts, b + 1)| == |Stack(ts, b)| - 1
  {
    hide Stack;
    StackNext(ts, b);
  }

  /** A subtree leaves the stack as it found it, and never drops below it on the way. */
  lemma {:induction false} StackFlat(ts: seq<Tok>, a: nat, it: Item)
    requires Occurs(ts, a, Flat(it))
    ensures Above(ts, a, a + |Flat(it)|) && Stack(ts, a + |Flat(it)|) == Stack(ts, a)
    decreases it, 1
  {
    hide Flat, FlatS, Stack, Occurs, Above;
    FlatFits(ts, a, it);
    StackNext(ts, a);
    if it.Node? {
      NodeParts(ts, a, it);
      StackFlatS(ts, a + 1, it.items);
      AboveToken(ts, a);
      AboveCat(ts, a, a + 1, a + 1 + |FlatS(it.items)|);
      AboveEnd(ts, a, a + 1 + |FlatS(it.items)|);
      StackNext(ts, a + 1 + |FlatS(it.items)|);
    } else {
      LeafPart(ts, a, it);
      AboveToken(ts, a);
    }
  }

  lemma FlatFits(ts: seq<Tok>, a: nat, it: Item)
    requires Occurs(ts, a, Flat(it))
    ensures a < |ts|
  {
    FlatHead(it);
  }

  lemma {:induction false} StackFlatS(ts: seq<Tok>, a: nat, its: seq<Item>)
    requires Occurs(ts, a, FlatS(its))
    ensures Above(ts, a, a + |FlatS(its)|) && Stack(ts, a + |FlatS(its)|) == Stack(ts, a)
    decreases its, 0
  {
    hide Flat, Stack, Occurs, Above;
    if its == [] {
      EmptyFits(ts, a);
    } else {
      OccursCat(ts, a, Flat(its[0]), FlatS(its[1..]));
      StackFlat(ts, a, its[0]);
      StackFlatS(ts, a + |Flat(its[0])|, its[1..]);
      AboveCat(ts, a, a + |Flat(its[0])|, a + |FlatS(its)|);
    }
  }

  lemma EmptyFits(ts: seq<Tok>, a: nat)
    requires Occurs(ts, a, [])
    ensures Above(ts, a, a)
  {
  }

  /** The nodes on the way to the node at p. */
  ghost function Ancestors(root: Item, p: seq<nat>): (r: seq<nat>)
    requires IsPath(root, p)
    ensures |r| == |p|
  {
    seq(|p|, k requires 0 <= k < |p| => PrefixPath(root, p, k); NodePos(root, p[..k]))
  }

  lemma {:induction false} PrefixPath(root: Item, p: seq<nat>, k: nat)
    requires IsPath(root, p) && k <= |p|
    ensures IsPath(root, p[..k]) && IsPath(At(root, p[..k]), p[k..]) && At(At(root, p[..k]), p[k..]) == At(root, p)
    decreases p
  {
    if k > 0 {
      PrefixPath(root.items[p[0]], p[1..], k - 1);
      assert p[..k][1..] == p[1..][..k - 1] && p[1..][k - 1..] == p[k..];
    } else {
      assert p[0..] == p;
    }
  }

  /** Up to token i of the block something is open, and nothing ends it. */
  ghost predicate Within(ts: seq<Tok>, i: nat) {
    i < |ts| && (forall k :: 0 < k <= i ==> |Stack(ts, k)| >= 1) && (forall k :: 0 <= k <= i ==> !ts[k].TFin?)
  }

  /** Before the node at p the open nodes are those on the way. */
  lemma {:induction false} StackAt(root: Item, p: seq<nat>)
    requires root.Node? && IsPath(root, p)
    ensures Within(Block(root), NodePos(root, p)) && Stack(Block(root), NodePos(root, p)) == Ancestors(root, p)
    decreases |p|
  {
    hide Flat, FlatS, Stack, Block, Occurs, Pre, Post, Within, IsPath, At, Ancestors;
    if p == [] {
      RootStack(root);
    } else {
      var q, k := p[..|p| - 1], p[|p| - 1];
      PrefixPath(root, p, |p| - 1);
      assert p == q + [k] && p[|p| - 1..] == [k];
      StackAt(root, q);
      LastStep(At(root, q), k);
      StackKid(root, q, k);
    }
  }

  lemma LastStep(n: Item, k: nat)
    requires IsPath(n, [k])
    ensures n.Node? && k < |n.items| && n.items[k].Node?
  {
  }

  lemma StackKid(root: Item, q: seq<nat>, k: nat)
    requires root.Node? && IsPath(root, q) && k < |At(root, q).items| && At(root, q).items[k].Node?
    requires Within(Block(root), NodePos(root, q)) && Stack(Block(root), NodePos(root, q)) == Ancestors(root, q)
    ensures IsPath(root, q + [k]) && Within(Block(root), NodePos(root, q + [k]))
    ensures Stack(Block(root), NodePos(root, q + [k])) == Ancestors(root, q + [k])
  {
    hide Flat, FlatS, Stack, Block, Occurs, Pre, Post, Ancestors, At, IsPath, Within, NodePos, ItemOff, NodeOff;
    var ts, i, n := Block(root), NodePos(root, q), At(root, q);
    NodeTokens(root, q);
    KidPath(root, q, k);
    NodeTokens(root, q + [k]);
    SplitItems(ts, i + 1, n.items, k);
    WithinItems(ts, i, n.items[..k]);
    AncestorsStep(root, q, k);
  }

  /** From a node past whole items. */
  lemma WithinItems(ts: seq<Tok>, i: nat, its: seq<Item>)
    requires Within(ts, i) && ts[i].TBegin? && Occurs(ts, i + 1, FlatS(its)) && i + 1 + |FlatS(its)| < |ts|
    requires ts[i + 1 + |FlatS(its)|].TBegin?
    ensures Within(ts, i + 1 + |FlatS(its)|) && Stack(ts, i + 1 + |FlatS(its)|) == Stack(ts, i) + [i]
  {
    hide FlatS, Stack, Occurs;
    StackNext(ts, i);
    StackFlatS(ts, i + 1, its);
    var e := i + 1 + |FlatS(its)|;
    forall k | 0 < k <= e
      ensures |Stack(ts, k)| >= 1
    {
      assert k > i ==> |Stack(ts, k)| >= |Stack(ts, i + 1)| >= 1;
    }
    forall k | 0 <= k <= e
      ensures !ts[k].TFin?
    {
      assert i < k < e ==> !ts[k].TFin?;
    }
  }

  lemma SplitItems(ts: seq<Tok>, a: nat, its: seq<Item>, k: nat)
    requires Occurs(ts, a, FlatS(its)) && k <= |its|
    ensures Occurs(ts, a, FlatS(its[..k]))
  {
    hide FlatS;
    assert its == its[..k] + its[k..];
    FlatSConcat(its[..k], its[k..]);
    OccursCat(ts, a, FlatS(its[..k]), FlatS(its[k..]));
  }

  lemma RootStack(root: Item)
    requires root.Node?
    ensures NodePos(root, []) == 0 && Within(Block(root), 0) && Stack(Block(root), 0) == [] == Ancestors(root, [])
  {
    NodeTokens(root, []);
  }

  lemma AncestorsStep(root: Item, q: seq<nat>, k: nat)
    requires IsPath(root, q) && IsPath(root, q + [k])
    ensures Ancestors(root, q + [k]) == Ancestors(root, q) + [NodePos(root, q)]
  {
    hide Pre;
    var a, b := Ancestors(root, q + [k]), Ancestors(root, q) + [NodePos(root, q)];
    forall i | 0 <= i < |a|
      ensures a[i] == b[i]
    {
      assert (q + [k])[..i] == q[..i];
      if i == |q| {
        assert q[..i] == q;
      }
    }
  }

  // ------------------------------------------------------------------ from one node to the next

  /** The scan from an open node reaches the next node, with the depth it is at; only END_NODEs lie between. */
  lemma {:induction false} NextStack(ts: seq<Tok>, j: nat, d: int, i: nat)
    requires j <= i < |ts| && ts[i].TBegin? && d == |Stack(ts, j)| - 1
    requires forall k :: j <= k <= i ==> |Stack(ts, k)| >= 1 && !ts[k].TFin?
    ensures var r := Next(ts, j, d, true);
      && r.AtNode? && r.j <= i && r.d == |Stack(ts, r.j)| <= |Stack(ts, j)| && Stack(ts, r.j) == Stack(ts, j)[..r.d]
      && forall k :: j <= k < r.j ==> !ts[k].TBegin?
    decreases i - j
  {
    hide Stack;
    StackNext(ts, j);
    if ts[j].TBegin? {
      assert Stack(ts, j)[..|Stack(ts, j)|] == Stack(ts, j);
    } else {
      var s := Stack(ts, j);
      NextStack(ts, j + 1, if ts[j].TEnd? then d - 1 else d, i);
      assert ts[j].TEnd? ==> forall n :: 0 <= n <= |s| - 1 ==> s[..|s| - 1][..n] == s[..n];
    }
  }

  /** One step of a scan towards node i: w is the stack at j with j itself. */
  lemma StepStack(ts: seq<Tok>, j: nat, i: nat)
    requires Within(ts, i) && j < i && ts[i].TBegin? && ts[j].TBegin?
    ensures var r := Next(ts, j + 1, |Stack(ts, j)|, true); var w := Stack(ts, j) + [j];
      r.AtNode? && j < r.j <= i && r.d == |Stack(ts, r.j)| <= |w| && Stack(ts, r.j) == w[..r.d]
  {
    hide Stack;
    StackNext(ts, j);
    NextStack(ts, j + 1, |Stack(ts, j)|, i);
  }

  lemma OffOrder(ts: seq<Tok>, i: nat, j: nat)
    requires i <= |ts| && j <= |ts|
    ensures Off(ts, i) <= Off(ts, j) <==> i <= j
  {
    hide Off;
    if i <= j {
      OffMono(ts, i, j);
    } else {
      OffMono(ts, j, i);
    }
  }

  /** What a scan from the root to the node at p needs. */
  lemma ScanFacts(f: Fdt, p: seq<nat>)
    requires f.Valid() && IsPath(f.root, p)
    ensures var ts, i := Block(f.root), NodePos(f.root, p);
      && Scannable(f, ts) && Probed(f) && Closed(ts) && i < |ts| && ts[i].TBegin? && ts[0].TBegin? && Off(ts, i) == NodeOff(f.root, p)
      && Off(ts, 0) == 0 && Stack(ts, 0) == [] && Within(ts, i) && Stack(ts, i) == Ancestors(f.root, p) && f.root.Node?
  {
    hide Flat, FlatS, Pre, Post, Block, Stack, Enc, Off, Within;
    NodeFacts(f, p);
    NodeFacts(f, []);
    NodeTokens(f.root, p);
    NodeTokens(f.root, []);
    StackAt(f.root, p);
    RootStack(f.root);
    OffZero(Block(f.root));
  }

  /** fdt_supernode_atdepth_offset: the last node seen at a depth is the ancestor there. */
  method SupernodeAtDepth(f: Fdt, nodeoffset: nat, supernodedepth: int, ghost p: seq<nat>) returns (r: int, nodedepth: int)
    requires f.Valid() && IsPath(f.root, p) && nodeoffset == NodeOff(f.root, p)
    ensures 0 <= supernodedepth ==> nodedepth == |p|
    ensures if 0 <= supernodedepth <= |p| then IsPath(f.root, p[..supernodedepth]) && r == NodeOff(f.root, p[..supernodedepth])
            else r == -FDT_ERR_NOTFOUND
  {
    hide Flat, FlatS, Pre, Post, Block, Stack, Wf, Enc, Off, Ancestors, IsPath, Within;
    nodedepth := -1;
    ghost var ts, i := Block(f.root), NodePos(f.root, p);
    ScanFacts(f, p);
    if f.ChkBasic() && RoProbe(f) < 0 { return RoProbe(f), nodedepth; }
    if supernodedepth < 0 { return -FDT_ERR_NOTFOUND, nodedepth; }
    var supernodeoffset := -FDT_ERR_INTERNAL;
    var offset, depth := 0, 0;
    ghost var j := 0;
    while offset >= 0 && offset <= nodeoffset
      invariant 0 <= j <= i && ts[j].TBegin? && offset == Off(ts, j) <= nodeoffset && depth == |Stack(ts, j)|
      invariant supernodedepth < depth ==> supernodeoffset == Off(ts, Stack(ts, j)[supernodedepth])
      decreases |ts| - j
    {
      if depth == supernodedepth {
        supernodeoffset := offset;
      }
      OffOrder(ts, i, j);
      if offset == nodeoffset {
        nodedepth := depth;
        Supernode(f.root, p, supernodedepth);
        if supernodedepth > depth { return -FDT_ERR_NOTFOUND, nodedepth; }
        return supernodeoffset, nodedepth;
      }
      StepStack(ts, j, i);
      ghost var stop := Next(ts, j + 1, depth, true);
      offset, depth := NextNode(f, offset, depth, true, ts, j);
      j := stop.j;
      OffOrder(ts, j, i);
    }
    return offset, nodedepth;
  }

  lemma Supernode(root: Item, p: seq<nat>, d: nat)
    requires root.Node? && IsPath(root, p)
    ensures NodePos(root, p) < |Block(root)| && |Stack(Block(root), NodePos(root, p))| == |p|
    ensures d <= |p| ==> IsPath(root, p[..d])
    ensures d < |p| ==> Off(Block(root), Stack(Block(root), NodePos(root, p))[d]) == NodeOff(root, p[..d])
    ensures d == |p| ==> Off(Block(root), NodePos(root, p)) == NodeOff(root, p[..d])
  {
    hide Flat, FlatS, Pre, Post, Block, Stack, Enc, Off;
    StackAt(root, p);
    NodeTokens(root, p);
    if d <= |p| {
      PrefixPath(root, p, d);
      NodeTokens(root, p[..d]);
      assert d == |p| ==> p[..d] == p;
    }
  }

  /** fdt_node_depth */
  method NodeDepth(f: Fdt, nodeoffset: nat, ghost p: seq<nat>) returns (r: int)
    requires f.Valid() && IsPath(f.root, p) && nodeoffset == NodeOff(f.root, p)
    ensures r == |p|
  {
    hide Wf, IsPath;
    WfLaid(f.hdr, f.mem[..], f.root, f.rsv);
    var chkExtra := f.ChkExtra();
    var err, nodedepth := SupernodeAtDepth(f, nodeoffset, 0, p);
    RootPath(f.root);
    assert p[..0] == [];
    if err != 0 {
      return if !chkExtra || err < 0 then err else -FDT_ERR_INTERNAL;
    }
    return nodedepth;
  }

  /** fdt_parent_offset: the root has none. */
  method ParentOffset(f: Fdt, nodeoffset: nat, ghost p: seq<nat>) returns (r: int)
    requires f.Valid() && IsPath(f.root, p) && nodeoffset == NodeOff(f.root, p)
    ensures if p == [] then r == -FDT_ERR_NOTFOUND
            else IsPath(f.root, p[..|p| - 1]) && r == NodeOff(f.root, p[..|p| - 1])
  {
    var nodedepth := NodeDepth(f, nodeoffset, p);
    if nodedepth < 0 { return nodedepth; }
    var ignored;
    r, ignored := SupernodeAtDepth(f, nodeoffset, nodedepth - 1, p);
  }

  // ------------------------------------------------------------------ fdt_get_path

  /** No node name has a slash. */
  ghost predicate SlashFree(ts: seq<Tok>) {
    forall k :: 0 <= k < |ts| && ts[k].TBegin? ==> SLASH !in ts[k].name
  }

  predicate Begins(ts: seq<Tok>, w: seq<nat>) {
    forall i :: 0 <= i < |w| ==> w[i] < |ts| && ts[w[i]].TBegin?
  }

  /** The names of nodes, each with a slash after it. */
  function Joined(ts: seq<Tok>, w: seq<nat>): (r: bytes)
    requires Begins(ts, w)
    ensures |r| >= |w| && (w != [] ==> r[|r| - 1] == SLASH)
  {
    if w == [] then [] else Joined(ts, w[..|w| - 1]) + ts[w[|w| - 1]].name + [SLASH]
  }

  lemma JoinedStep(ts: seq<Tok>, w: seq<nat>, j: nat)
    requires Begins(ts, w) && j < |ts| && ts[j].TBegin?
    ensures Begins(ts, w + [j]) && Joined(ts, w + [j]) == Joined(ts, w) + ts[j].name + [SLASH]
  {
    assert (w + [j])[..|w|] == w;
  }

  lemma {:induction false} JoinedMono(ts: seq<Tok>, w: seq<nat>, k: nat)
    requires Begins(ts, w) && k <= |w|
    ensures Begins(ts, w[..k]) && |Joined(ts, w[..k])| <= |Joined(ts, w)|
    decreases |w|
  {
    if k == |w| {
      assert w[..k] == w;
    } else {
      JoinedMono(ts, w[..|w| - 1], k);
      assert w[..|w| - 1][..k] == w[..k];
    }
  }

  /** The inner loop of fdt_get_path: dropping the last name. */
  method DropName(buf: array<byte>, p: nat, ghost ts: seq<Tok>, ghost w: seq<nat>) returns (p': nat)
    requires Begins(ts, w) && |w| >= 2 && SlashFree(ts) && p == |Joined(ts, w)| <= buf.Length && buf[..p] == Joined(ts, w)
    ensures Begins(ts, w[..|w| - 1]) && p' == |Joined(ts, w[..|w| - 1])| <= p && buf[..p'] == Joined(ts, w[..|w| - 1])
  {
    ghost var v, name := w[..|w| - 1], ts[w[|w| - 1]].name;
    ghost var base := |Joined(ts, v)|;
    assert Joined(ts, w) == Joined(ts, v) + name + [SLASH];
    LastSlash(buf[..p], Joined(ts, v), name);
    p' := p - 1;
    assert forall k {:trigger buf[k]} :: base <= k < p - 1 ==> buf[k] == buf[..p][k] != SLASH;
    assert buf[base - 1] == buf[..p][base - 1] == SLASH;
    while buf[p' - 1] != SLASH
      invariant base <= p' < p
      decreases p'
    {
      p' := p' - 1;
    }
    assert buf[..p'] == buf[..p][..base] == Joined(ts, v);
  }

  lemma LastSlash(s: bytes, a: bytes, name: bytes)
    requires s == a + name + [SLASH] && a != [] && a[|a| - 1] == SLASH && SLASH !in name
    ensures s[|a| - 1] == SLASH && forall k :: |a| <= k < |s| - 1 ==> s[k] != SLASH
  {
    forall k | |a| <= k < |s| - 1
      ensures s[k] != SLASH
    {
      assert s[k] == name[k - |a|];
    }
  }

  /** memcpy of a node's name out of the blob into the caller's buffer, and a slash. */
  method PutName(f: Fdt, at: nat, namelen: nat, buf: array<byte>, p: nat, ghost name: bytes)
    requires Occurs(f.mem[..], at, name) && namelen == |name| && p + namelen + 1 <= buf.Length && buf != f.mem
    modifies buf
    ensures buf[..p + namelen + 1] == old(buf[..p]) + name + [SLASH]
  {
    for i := 0 to namelen
      invariant buf[..p + i] == old(buf[..p]) + name[..i]
    {
      OccursAt(f.mem[..], at, name, i);
      buf[p + i] := f.mem[at + i];
    }
    buf[p + namelen] := SLASH;
  }

  /** The path with its last slash dropped, unless it is the only one. */
  function PathString(ts: seq<Tok>, w: seq<nat>): bytes
    requires Begins(ts, w)
  {
    var full := Joined(ts, w);
    if |full| > 1 then full[..|full| - 1] else full
  }

  /** The state of fdt_get_path: the first n names of w are in the buffer, and the next does not fit. */
  ghost predicate Holding(buf: array<byte>, p: nat, buflen: nat, ts: seq<Tok>, w: seq<nat>, n: nat)
    reads buf
  {
    && Begins(ts, w) && n <= |w| && Begins(ts, w[..n])
    && p == |Joined(ts, w[..n])| <= buflen <= buf.Length && buf[..p] == Joined(ts, w[..n])
    && (n < |w| ==> Begins(ts, w[..n + 1]) && |Joined(ts, w[..n + 1])| > buflen)
  }

  lemma HoldPrefix(buf: array<byte>, p: nat, buflen: nat, ts: seq<Tok>, w: seq<nat>, n: nat, d: nat)
    requires Holding(buf, p, buflen, ts, w, n) && n <= d <= |w|
    ensures Holding(buf, p, buflen, ts, w[..d], n)
  {
    assert w[..d][..n] == w[..n];
    assert n < d ==> w[..d][..n + 1] == w[..n + 1];
  }

  /** The outer while loop: names of nodes that were left are dropped. */
  method DropNames(buf: array<byte>, p0: nat, buflen: nat, pdepth0: nat, depth: nat, ghost ts: seq<Tok>, ghost w: seq<nat>)
      returns (p: nat, pdepth: nat)
    requires Holding(buf, p0, buflen, ts, w, pdepth0) && depth <= |w| && (depth == 0 ==> pdepth0 == 0) && SlashFree(ts)
    ensures pdepth <= depth && Holding(buf, p, buflen, ts, w[..depth], pdepth)
  {
    hide Joined, SlashFree, Begins;
    p, pdepth := p0, pdepth0;
    assert w[..|w|] == w;
    ghost var n := |w|;
    while pdepth > depth
      invariant depth <= n <= |w| && Holding(buf, p, buflen, ts, w[..n], pdepth) && (depth == 0 ==> pdepth == 0)
      decreases pdepth
    {
      HoldTop(buf, p, buflen, ts, w[..n], pdepth);
      assert w[..n][..pdepth] == w[..pdepth] && w[..pdepth][..pdepth - 1] == w[..pdepth - 1];
      p := DropName(buf, p, ts, w[..pdepth]);
      pdepth := pdepth - 1;
      n := pdepth;
      HoldAll(buf, p, buflen, ts, w[..n]);
    }
    HoldPrefix(buf, p, buflen, ts, w[..n], pdepth, depth);
    assert w[..n][..depth] == w[..depth];
  }

  lemma HoldTop(buf: array<byte>, p: nat, buflen: nat, ts: seq<Tok>, w: seq<nat>, n: nat)
    requires Holding(buf, p, buflen, ts, w, n)
    ensures n <= |w| && Begins(ts, w[..n]) && p == |Joined(ts, w[..n])| <= buflen <= buf.Length && buf[..p] == Joined(ts, w[..n])
  {
  }

  lemma HoldAll(buf: array<byte>, p: nat, buflen: nat, ts: seq<Tok>, w: seq<nat>)
    requires Begins(ts, w) && p == |Joined(ts, w)| <= buflen <= buf.Length && buf[..p] == Joined(ts, w)
    ensures Holding(buf, p, buflen, ts, w, |w|)
  {
    assert w[..|w|] == w;
  }

  /** The nodes whose names make up the path of the node at p. */
  ghost function NodePath(root: Item, p: seq<nat>): seq<nat>
    requires IsPath(root, p)
  {
    Ancestors(root, p) + [NodePos(root, p)]
  }

  lemma PathBegins(root: Item, p: seq<nat>)
    requires root.Node? && IsPath(root, p)
    ensures Begins(Block(root), NodePath(root, p))
  {
    hide Stack, Block, Pre, Ancestors, Flat, FlatS, At, IsPath, Occurs, Post;
    StackAt(root, p);
    NodeTokens(root, p);
  }

  lemma HoldNothing(buf: array<byte>, buflen: nat, ts: seq<Tok>)
    requires buflen <= buf.Length
    ensures Holding(buf, 0, buflen, ts, [], 0)
  {
  }

  lemma HoldBounds(buf: array<byte>, p: nat, buflen: nat, ts: seq<Tok>, w: seq<nat>, n: nat)
    requires Holding(buf, p, buflen, ts, w, n)
    ensures Begins(ts, w) && n <= |w| && p <= buflen <= buf.Length
    ensures n == |w| ==> p == |Joined(ts, w)| && buf[..p] == Joined(ts, w)
  {
    assert n == |w| ==> w[..n] == w;
  }

  /** One more node: its name has been put there, or does not fit. */
  lemma HoldNext(buf: array<byte>, p: nat, buflen: nat, ts: seq<Tok>, w: seq<nat>, j: nat, n: nat)
    requires Begins(ts, w) && j < |ts| && ts[j].TBegin? && buflen <= buf.Length
    requires n == |w| || n == |w| + 1
    requires n == |w| ==> p == |Joined(ts, w)| <= buflen && buf[..p] == Joined(ts, w) && |Joined(ts, w + [j])| > buflen
    requires n == |w| + 1 ==> p == |Joined(ts, w + [j])| <= buflen && buf[..p] == Joined(ts, w + [j])
    ensures Holding(buf, p, buflen, ts, w + [j], n)
  {
    var v := w + [j];
    assert v[..|w|] == w && v[..|w| + 1] == v;
  }

  /** One more node below one whose name does not fit. */
  lemma HoldMore(buf: array<byte>, p: nat, buflen: nat, ts: seq<Tok>, w: seq<nat>, j: nat, n: nat)
    requires Holding(buf, p, buflen, ts, w, n) && n < |w| && j < |ts| && ts[j].TBegin?
    ensures Holding(buf, p, buflen, ts, w + [j], n)
  {
    assert (w + [j])[..n] == w[..n] && (w + [j])[..n + 1] == w[..n + 1];
  }

  lemma HoldDone(buf: array<byte>, p: nat, buflen: nat, ts: seq<Tok>, w: seq<nat>, n: nat)
    requires Holding(buf, p, buflen, ts, w, n)
    ensures Begins(ts, w) && (n < |w| ==> |Joined(ts, w)| > buflen)
    ensures n == |w| ==> p == |Joined(ts, w)| <= buflen && buf[..p] == Joined(ts, w)
  {
    assert n == |w| ==> w[..n] == w;
    if n < |w| {
      JoinedMono(ts, w, n + 1);
    }
  }

  /** The name of the current node, if those above it all fitted and it fits too. */
  method AddName(f: Fdt, offset: nat, buf: array<byte>, p0: nat, buflen: nat, pdepth0: nat, depth: nat,
                 ghost ts: seq<Tok>, ghost j: nat, ghost w: seq<nat>) returns (p: nat, pdepth: nat)
    requires Scannable(f, ts) && Probed(f) && j < |ts| && ts[j].TBegin? && offset == Off(ts, j) && buf != f.mem
    requires Holding(buf, p0, buflen, ts, w, pdepth0) && depth == |w| && pdepth0 <= depth
    modifies buf
    ensures pdepth <= depth + 1 && Holding(buf, p, buflen, ts, w + [j], pdepth)
  {
    hide Holding, Joined, Begins, Scannable, Off;
    p, pdepth := p0, pdepth0;
    HoldBounds(buf, p, buflen, ts, w, pdepth);
    if pdepth >= depth {
      var at, namelen := GetName(f, offset, ts, j);
      JoinedStep(ts, w, j);
      if p + namelen + 1 <= buflen {
        OccursCat(f.mem[..], at.at, ts[j].name, [0]);
        PutName(f, at.at, namelen, buf, p, ts[j].name);
        p := p + namelen + 1;
        pdepth := pdepth + 1;
      }
      HoldNext(buf, p, buflen, ts, w, j, pdepth);
    } else {
      HoldMore(buf, p, buflen, ts, w, j, pdepth);
    }
  }

  /** fdt_get_path: it succeeds exactly when the path and its NUL fit, a buffer of less than two bytes never being enough. */
  method GetPath(f: Fdt, nodeoffset: nat, buf: array<byte>, buflen: nat, ghost path: seq<nat>) returns (r: int)
    requires f.Valid() && IsPath(f.root, path) && nodeoffset == NodeOff(f.root, path)
    requires buf != f.mem && buflen <= buf.Length && SlashFree(Block(f.root))
    modifies buf
    ensures Begins(Block(f.root), NodePath(f.root, path))
    ensures var s := PathString(Block(f.root), NodePath(f.root, path));
      if buflen >= 2 && |s| + 1 <= buflen then r == 0 && buf[..|s| + 1] == s + [0] else r == -FDT_ERR_NOSPACE
  {
    hide Flat, FlatS, Pre, Post, Block, Stack, Wf, Enc, Off, Ancestors, IsPath, Within, Holding, SlashFree, Joined, Begins;
    ghost var ts, i := Block(f.root), NodePos(f.root, path);
    ScanFacts(f, path);
    PathBegins(f.root, path);
    if f.ChkBasic() && RoProbe(f) < 0 { return RoProbe(f); }
    if buflen < 2 { return -FDT_ERR_NOSPACE; }
    var pdepth, p := 0, 0;
    var offset, depth := 0, 0;
    ghost var j: nat, w: seq<nat> := 0, [];
    HoldNothing(buf, buflen, ts);
    while offset >= 0 && offset <= nodeoffset
      invariant 0 <= j <= i && ts[j].TBegin? && offset == Off(ts, j) <= nodeoffset && depth == |Stack(ts, j)| <= |w|
      invariant 0 <= pdepth && 0 <= p && Holding(buf, p, buflen, ts, w, pdepth) && Stack(ts, j) == w[..depth] && (depth == 0 ==> pdepth == 0)
      decreases |ts| - j
    {
      p, pdepth := DropNames(buf, p, buflen, pdepth, depth, ts, w);
      w := w[..depth];
      p, pdepth := AddName(f, offset, buf, p, buflen, pdepth, depth, ts, j, w);
      w := w + [j];
      OffOrder(ts, i, j);
      if offset == nodeoffset {
        HoldDone(buf, p, buflen, ts, w, pdepth);
        if pdepth < depth + 1 { return -FDT_ERR_NOSPACE; }
        if p > 1 {
          p := p - 1;
        }
        buf[p] := 0;
        return 0;
      }
      StepStack(ts, j, i);
      ghost var stop := Next(ts, j + 1, depth, true);
      offset, depth := NextNode(f, offset, depth, true, ts, j);
      j := stop.j;
      OffOrder(ts, j, i);
    }
    return offset;
  }

  // ------------------------------------------------------------------ the path as a string

  /** The names on the way to the node at p, both ends included. */
  function PathNames(it: Item, p: seq<nat>): (r: seq<bytes>)
    requires IsPath(it, p)
    ensures |r| == |p| + 1
    decreases p
  {
    if p == [] then [it.name] else [it.name] + PathNames(it.items[p[0]], p[1..])
  }

  /** Each name with a slash after it, and with a slash before it. */
  function SlashAfter(ns: seq<bytes>): bytes {
    if ns == [] then [] else ns[0] + [SLASH] + SlashAfter(ns[1..])
  }

  function SlashBefore(ns: seq<bytes>): bytes {
    if ns == [] then [] else [SLASH] + ns[0] + SlashBefore(ns[1..])
  }

  lemma {:induction false} SlashAfterLast(ns: seq<bytes>, n: bytes)
    ensures SlashAfter(ns + [n]) == SlashAfter(ns) + n + [SLASH]
  {
    if ns == [] {
      assert [n][1..] == [];
    } else {
      SlashAfterLast(ns[1..], n);
      assert (ns + [n])[1..] == ns[1..] + [n];
    }
  }

  lemma {:induction false} SlashShift(ns: seq<bytes>)
    ensures [SLASH] + SlashAfter(ns) == SlashBefore(ns) + [SLASH]
  {
    if ns != [] {
      SlashShift(ns[1..]);
      var a, b := SlashAfter(ns[1..]), SlashBefore(ns[1..]);
      assert [SLASH] + (ns[0] + [SLASH] + a) == [SLASH] + ns[0] + ([SLASH] + a);
      assert [SLASH] + ns[0] + (b + [SLASH]) == [SLASH] + ns[0] + b + [SLASH];
    }
  }

  lemma {:induction false} PathNamesLast(it: Item, q: seq<nat>, k: nat)
    requires IsPath(it, q) && k < |At(it, q).items| && At(it, q).items[k].Node?
    ensures IsPath(it, q + [k]) && PathNames(it, q + [k]) == PathNames(it, q) + [At(it, q).items[k].name]
    decreases q
  {
    if q == [] {
      assert (q + [k])[1..] == [];
    } else {
      assert (q + [k])[1..] == q[1..] + [k];
      PathNamesLast(it.items[q[0]], q[1..], k);
    }
  }

  /** What fdt_get_path collects are the names on the way. */
  lemma {:induction false} JoinedNames(root: Item, p: seq<nat>)
    requires root.Node? && IsPath(root, p)
    ensures Begins(Block(root), NodePath(root, p)) && Joined(Block(root), NodePath(root, p)) == SlashAfter(PathNames(root, p))
    decreases |p|
  {
    hide Flat, FlatS, Pre, Post, Block, Stack, Begins, Ancestors, IsPath, At, PathNames, SlashAfter, Joined;
    PathBegins(root, p);
    NodeTokens(root, p);
    if p == [] {
      RootNames(root);
    } else {
      var q, k := p[..|p| - 1], p[|p| - 1];
      PrefixPath(root, p, |p| - 1);
      assert p == q + [k] && p[|p| - 1..] == [k];
      LastStep(At(root, q), k);
      KidPath(root, q, k);
      JoinedNames(root, q);
      AncestorsStep(root, q, k);
      JoinedStep(Block(root), NodePath(root, q), NodePos(root, p));
      PathNamesLast(root, q, k);
      SlashAfterLast(PathNames(root, q), At(root, q).items[k].name);
    }
  }

  lemma RootPos(root: Item)
    requires root.Node?
    ensures NodePath(root, []) == [0] && At(root, []) == root && NodePos(root, []) == 0 && PathNames(root, []) == [root.name]
  {
  }

  lemma OneJoined(ts: seq<Tok>, k: nat)
    requires k < |ts| && ts[k].TBegin?
    ensures Begins(ts, [k]) && Joined(ts, [k]) == ts[k].name + [SLASH]
  {
    assert [k][..0] == [] && Joined(ts, []) == [];
  }

  lemma OneName(name: bytes)
    ensures SlashAfter([name]) == name + [SLASH]
  {
    assert [name][1..] == [];
  }

  lemma RootNames(root: Item)
    requires root.Node?
    ensures Begins(Block(root), NodePath(root, [])) && Joined(Block(root), NodePath(root, [])) == SlashAfter(PathNames(root, []))
  {
    hide Block;
    NodeTokens(root, []);
    RootPos(root);
    OneJoined(Block(root), 0);
    OneName(root.name);
  }

  /** The path: the root's empty name, then each name after a slash. */
  lemma PathIs(root: Item, p: seq<nat>)
    requires root.Node? && IsPath(root, p) && root.name == []
    ensures Begins(Block(root), NodePath(root, p))
    ensures PathString(Block(root), NodePath(root, p)) == if p == [] then [SLASH] else SlashBefore(PathNames(root, p)[1..])
  {
    hide Block, NodePath, Begins, Joined;
    JoinedNames(root, p);
    var ns := PathNames(root, p);
    SlashShift(ns[1..]);
    assert SlashAfter(ns) == [] + [SLASH] + SlashAfter(ns[1..]);
    assert SlashAfter(ns) == SlashBefore(ns[1..]) + [SLASH];
    var b := SlashBefore(ns[1..]);
    assert (b + [SLASH])[..|b + [SLASH]| - 1] == b;
  }

  // ------------------------------------------------------------------ fdt_path_offset

  /** The first slash, or the end. */
  function SegEnd(s: bytes): (n: nat)
    ensures n <= |s| && (n < |s| ==> s[n] == SLASH) && forall i :: 0 <= i < n ==> s[i] != SLASH
  {
    if s == [] || s[0] == SLASH then 0 else 1 + SegEnd(s[1..])
  }

  /** The parts of a path between its slashes. */
  function Segs(s: bytes): seq<bytes>
    decreases |s|
  {
    if s == [] then []
    else if s[0] == SLASH then Segs(s[1..])
    else [s[..SegEnd(s)]] + Segs(s[SegEnd(s)..])
  }

  datatype Found = Missing | Reached(path: seq<nat>)

  /** Where the parts lead, each to the first child the unit-address rule accepts. */
  function Follow(it: Item, segs: seq<bytes>): (r: Found)
    requires it.Node?
    ensures r.Reached? ==> IsPath(it, r.path)
    decreases |segs|
  {
    if segs == [] then Reached([])
    else
      var k := KidIdx(it.items, Named(segs[0]));
      if k == |it.items| then Missing
      else match Follow(it.items[k], segs[1..])
        case Missing => Missing
        case Reached(q) => Reached([k] + q)
  }

  /** Parts still to follow from the node at q. */
  function FollowFrom(root: Item, q: seq<nat>, segs: seq<bytes>): Found
    requires IsPath(root, q)
  {
    match Follow(At(root, q), segs)
    case Missing => Missing
    case Reached(r) => Reached(q + r)
  }

  lemma FollowUnfold(it: Item, seg: bytes, segs: seq<bytes>)
    requires it.Node?
    ensures var k := KidIdx(it.items, Named(seg));
      if k == |it.items| then Follow(it, [seg] + segs) == Missing
      else Follow(it, [seg] + segs) == match Follow(it.items[k], segs) case Missing => Missing case Reached(q) => Reached([k] + q)
  {
    assert ([seg] + segs)[1..] == segs;
  }

  lemma KidIs(root: Item, q: seq<nat>, k: nat)
    requires IsPath(root, q) && k < |At(root, q).items| && At(root, q).items[k].Node?
    ensures IsPath(root, q + [k]) && At(root, q + [k]) == At(root, q).items[k]
  {
    KidPath(root, q, k);
  }

  lemma FollowStep(root: Item, q: seq<nat>, seg: bytes, segs: seq<bytes>)
    requires IsPath(root, q)
    ensures var its := At(root, q).items; var k := KidIdx(its, Named(seg));
      if k == |its| then FollowFrom(root, q, [seg] + segs) == Missing
      else IsPath(root, q + [k]) && FollowFrom(root, q, [seg] + segs) == FollowFrom(root, q + [k], segs)
  {
    var its := At(root, q).items;
    var k := KidIdx(its, Named(seg));
    hide At, IsPath, Follow, KidIdx;
    FollowUnfold(At(root, q), seg, segs);
    if k < |its| {
      KidIs(root, q, k);
      match Follow(its[k], segs)
      case Missing =>
      case Reached(r) => Assoc(q, [k], r);
    }
  }

  lemma SlashSkip(s: bytes, i: nat)
    requires i < |s| && s[i] == SLASH
    ensures Segs(s[i..]) == Segs(s[i + 1..])
  {
    assert s[i..][1..] == s[i + 1..];
  }

  lemma SegStep(s: bytes, i: nat, e: nat)
    requires i < e <= |s| && (e == |s| || s[e] == SLASH) && forall k :: i <= k < e ==> s[k] != SLASH
    ensures Segs(s[i..]) == [s[i..e]] + Segs(s[e..])
  {
    var u := s[i..];
    assert u[0] == s[i];
    assert forall k :: 0 <= k < e - i ==> u[k] == s[i + k];
    assert SegEnd(u) == e - i;
    assert u[..e - i] == s[i..e] && u[e - i..] == s[e..];
  }

  /** fdt_path_offset of a path from the root: the node its parts lead to. */
  method PathOffset(f: Fdt, path: bytes) returns (r: int, ghost goal: Found)
    requires f.Valid() && NoNul(path) && path != [] && path[0] == SLASH
    ensures f.root.Node? && goal == Follow(f.root, Segs(path))
    ensures match goal case Missing => r == -FDT_ERR_NOTFOUND case Reached(q) => IsPath(f.root, q) && r == NodeOff(f.root, q)
  {
    hide Wf, Segs, Follow, IsPath, At, NodeOff, KidIdx;
    WfLaid(f.hdr, f.mem[..], f.root, f.rsv);
    StartFollow(f.root, Segs(path));
    goal := Follow(f.root, Segs(path));
    if f.ChkBasic() && RoProbe(f) < 0 { return RoProbe(f), goal; }
    var end := |path|;
    var p := 0;
    r := 0;
    ghost var q: seq<nat> := [];
    assert path[0..] == path;
    while p < end
      invariant p <= end && IsPath(f.root, q) && r == NodeOff(f.root, q) && FollowFrom(f.root, q, Segs(path[p..])) == goal
      decreases end - p
    {
      while path[p] == SLASH
        invariant p < end && FollowFrom(f.root, q, Segs(path[p..])) == goal
        decreases end - p
      {
        SlashSkip(path, p);
        p := p + 1;
        if p == end {
          NoSegs(f.root, q, path[p..]);
          return;
        }
      }
      var e := p;
      while e < end && path[e] != SLASH
        invariant p <= e <= end && forall k :: p <= k < e ==> path[k] != SLASH
      {
        e := e + 1;
      }
      SegStep(path, p, e);
      FollowStep(f.root, q, path[p..e], Segs(path[e..]));
      ghost var k := KidIdx(At(f.root, q).items, Named(path[p..e]));
      r := SubnodeOffset(f, r, path[p..e], q);
      if r < 0 { return; }
      q := q + [k];
      p := e;
    }
    NoSegs(f.root, q, path[p..]);
  }

  lemma StartFollow(root: Item, segs: seq<bytes>)
    requires root.Node?
    ensures IsPath(root, []) && NodeOff(root, []) == 0 && FollowFrom(root, [], segs) == Follow(root, segs)
  {
    match Follow(root, segs)
    case Missing =>
    case Reached(r) => assert [] + r == r;
  }

  lemma NoSegs(root: Item, q: seq<nat>, s: bytes)
    requires IsPath(root, q) && s == []
    ensures FollowFrom(root, q, Segs(s)) == Reached(q)
  {
    assert q + [] == q;
  }

  // ------------------------------------------------------------------ the round trip

  /** Names as the specification has them: not empty, no slash. */
  predicate GoodNames(ns: seq<bytes>) {
    forall i :: 0 <= i < |ns| ==> ns[i] != [] && SLASH !in ns[i]
  }

  lemma {:induction false} SegsOfPath(ns: seq<bytes>)
    requires GoodNames(ns)
    ensures Segs(SlashBefore(ns)) == ns
  {
    if ns != [] {
      SegsOfPath(ns[1..]);
      assert ns == [ns[0]] + ns[1..];
      SegOfPath(ns[0], SlashBefore(ns[1..]));
    }
  }

  lemma SegOfPath(n: bytes, rest: bytes)
    requires n != [] && SLASH !in n && (rest == [] || rest[0] == SLASH)
    ensures Segs([SLASH] + n + rest) == [n] + Segs(rest)
  {
    hide Segs;
    var s := [SLASH] + n + rest;
    SlashSkip(s, 0);
    assert s[0..] == s;
    Middle([SLASH], n, rest);
    assert forall k :: 1 <= k < 1 + |n| ==> s[k] == n[k - 1];
    SegStep(s, 1, 1 + |n|);
  }

  /** On the way to p no earlier sibling of a node is accepted for the name of that node. */
  predicate Unambiguous(it: Item, p: seq<nat>)
    requires IsPath(it, p)
    decreases p
  {
    p == [] ||
    var c := it.items[p[0]];
    assert IsPath(c, p[1..]);
    (forall i :: 0 <= i < p[0] && it.items[i].Node? ==> !NameEq(it.items[i].name, c.name)) && Unambiguous(c, p[1..])
  }

  lemma {:induction false} FollowNames(it: Item, p: seq<nat>)
    requires IsPath(it, p)
    ensures Follow(it, PathNames(it, p)[1..]) == Reached(p) <==> Unambiguous(it, p)
    decreases p
  {
    var ns := PathNames(it, p)[1..];
    if p != [] {
      var c := it.items[p[0]];
      assert ns == PathNames(c, p[1..]);
      assert ns[0] == c.name && ns[1..] == PathNames(c, p[1..])[1..];
      FollowNames(c, p[1..]);
      SelectsItself(it.items, p[0]);
      var k := KidIdx(it.items, Named(ns[0]));
      if k == p[0] && Unambiguous(it, p) {
        assert p == [k] + p[1..];
      } else if k < |it.items| && Follow(it.items[k], ns[1..]).Reached? {
        var q := Follow(it.items[k], ns[1..]).path;
        assert ([k] + q)[0] == k && ([k] + q)[1..] == q;
      }
    }
  }

  /** fdt_path_offset undoes fdt_get_path exactly for the nodes that no earlier sibling on the way shadows. */
  lemma PathRoundTrip(root: Item, p: seq<nat>)
    requires root.Node? && IsPath(root, p) && root.name == [] && GoodNames(PathNames(root, p)[1..])
    ensures Begins(Block(root), NodePath(root, p))
    ensures Follow(root, Segs(PathString(Block(root), NodePath(root, p)))) == Reached(p) <==> Unambiguous(root, p)
  {
    hide Block, NodePath, Begins, PathString, Follow, Unambiguous;
    PathIs(root, p);
    FollowNames(root, p);
    if p == [] {
      assert Segs([SLASH]) == Segs([SLASH][1..]) == [];
      assert PathNames(root, [])[1..] == [];
    } else {
      SegsOfPath(PathNames(root, p)[1..]);
    }
  }

  /** A name with a unit address selects its own kind only; a plain name also accepts one with an address. */
  lemma SelectsItself(its: seq<Item>, k: nat)
    requires k < |its| && its[k].Node?
    ensures KidIdx(its, Named(its[k].name)) == k <==>
      forall i :: 0 <= i < k && its[i].Node? ==> !NameEq(its[i].name, its[k].name)
  {
    assert NameEq(its[k].name, its[k].name);
  }

  /** The path "/a" of the second of two children "a@1" and "a" leads to the first. */
  lemma Shadowed()
    ensures var root := Node([], [0, 0, 0], [Node([97, 64, 49], [], []), Node([97], [0, 0], [])]);
      && root.name == [] && IsPath(root, [1]) && GoodNames(PathNames(root, [1])[1..]) && !Unambiguous(root, [1])
      && Follow(root, PathNames(root, [1])[1..]) == Reached([0])
  {
    var root := Node([], [0, 0, 0], [Node([97, 64, 49], [], []), Node([97], [0, 0], [])]);
    assert IsPath(root.items[1], []);
    assert NameEq([97, 64, 49], [97]);
    assert PathNames(root, [1])[1..] == [[97]];
    assert KidIdx(root.items, Named([97])) == 0;
    assert [0] + [] == [0];
  }
}
