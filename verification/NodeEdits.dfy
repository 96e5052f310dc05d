/**
  fdt_del_node, fdt_nop_node and fdt_nop_property.
 */
module NodeEdits {
  import opened Bytes
  import opened Tokens
  import opened Tree
  import opened Meaning
  import opened Blob
  import opened Scan
  import opened Walk
  import opened TreeWalk
  import opened Props
  import opened Edit
  import opened Splicing
  import opened Effects
  import opened Rw
  import opened PropWrites
  import opened Cut

  // ------------------------------------------------------------------ overwriting keeps offsets

  /** Every token outside items k..e of the node at p is still there, at the same byte offset. */
  ghost predicate OffsetsKept(root: Item, p: seq<nat>, k: nat, e: nat, r: Item, n: nat) {
    && IsPath(root, p) && k <= e <= |At(root, p).items|
    && var ts, us, i, j := Block(root), Block(r), ItemPos(root, p, k), ItemPos(root, p, e);
       && i + n <= |us| && i <= |ts| && j <= |ts| && us[..i] == ts[..i] && us[i + n..] == ts[j..]
       && (forall x :: 0 <= x <= i ==> Off(us, x) == Off(ts, x))
       && (forall y :: j <= y <= |ts| ==> y - j + i + n <= |us| && Off(us, y - j + i + n) == Off(ts, y))
  }

  /** Items k..e of the node at p were overwritten with NOPs: no other byte changed and no other token moved. */
  ghost predicate NoppedOut(h: Header, m: bytes, m': bytes, root: Item, p: seq<nat>, k: nat, e: nat, r: Item) {
    && IsPath(root, p) && k <= e <= |At(root, p).items|
    && var n := |Enc(FlatS(At(root, p).items[k..e]))| / 4;
       OffsetsKept(root, p, k, e, r, n) && Stored(m, m', HoleAt(h, root, p, k), NopBytes(n))
  }

  lemma NopKeepsOffsets(root: Item, p: seq<nat>, k: nat, e: nat, n: nat)
    requires IsPath(root, p) && k <= e <= |At(root, p).items|
    requires |Enc(FlatS(At(root, p).items[k..e]))| == 4 * n
    ensures OffsetsKept(root, p, k, e, Put(root, p, Replace(At(root, p), k, e, Nops(n))), n)
  {
    hide Flat, Pre, Post, Put, Enc, FlatS, Block, Tail, ItemPre, At, Nops;
    var its := At(root, p).items;
    var r := Put(root, p, Replace(At(root, p), k, e, Nops(n)));
    ReplacedTokens(root, p, k, e, Nops(n));
    NopsEnc(n);
    NopsFlat(n);
    var a, b, c, d := ItemPre(root, p, k), FlatS(its[k..e]), FlatS(Nops(n)), FlatS(its[e..]) + Tail(root, p);
    KeepOffs(a, b, c, d);
    assert Block(root) == a + b + d && Block(r) == a + c + d;
  }

  lemma {:induction false} NopsFlat(n: nat)
    ensures |FlatS(Nops(n))| == n
  {
    if n > 0 {
      NopsFlat(n - 1);
      FlatSConcat(Nops(n - 1), [Item.Nop]);
      FlatSOne(Item.Nop);
    }
  }

  lemma KeepOffs(a: seq<Tok>, b: seq<Tok>, c: seq<Tok>, d: seq<Tok>)
    requires |Enc(b)| == |Enc(c)|
    ensures forall x :: 0 <= x <= |a| ==> Off(a + c + d, x) == Off(a + b + d, x)
    ensures forall y :: |a| + |b| <= y <= |a + b + d| ==> Off(a + c + d, y - |b| + |c|) == Off(a + b + d, y)
    ensures (a + c + d)[..|a|] == (a + b + d)[..|a|] && (a + c + d)[|a| + |c|..] == (a + b + d)[|a| + |b|..]
  {
    hide Enc;
    forall x | 0 <= x <= |a|
      ensures Off(a + c + d, x) == Off(a + b + d, x)
    {
      assert (a + c + d)[..x] == a[..x] == (a + b + d)[..x];
    }
    forall y | |a| + |b| <= y <= |a + b + d|
      ensures Off(a + c + d, y - |b| + |c|) == Off(a + b + d, y)
    {
      var z := y - |a| - |b|;
      assert (a + c + d)[..y - |b| + |c|] == a + c + d[..z];
      assert (a + b + d)[..y] == a + b + d[..z];
      EncConcat(a + c, d[..z]);
      EncConcat(a, c);
      EncConcat(a + b, d[..z]);
      EncConcat(a, b);
    }
  }

  /** The tokens before and after items k..e are replaced. */
  lemma ReplacedTokens(root: Item, p: seq<nat>, k: nat, e: nat, ins: seq<Item>)
    requires IsPath(root, p) && k <= e <= |At(root, p).items|
    ensures var r, d := Put(root, p, Replace(At(root, p), k, e, ins)), FlatS(At(root, p).items[e..]) + Tail(root, p);
      && Block(root) == ItemPre(root, p, k) + FlatS(At(root, p).items[k..e]) + d
      && Block(r) == ItemPre(root, p, k) + FlatS(ins) + d
      && ItemPos(root, p, k) == |ItemPre(root, p, k)| && ItemPos(root, p, e) == |ItemPre(root, p, k)| + |FlatS(At(root, p).items[k..e])|
  {
    hide Flat, Pre, Post, Enc, FlatS, Block, Tail, ItemPre;
    var n := Replace(At(root, p), k, e, ins);
    var r, its := Put(root, p, n), At(root, p).items;
    ReplacedBlock(root, p, k, e, ins);
    SplitTokens(root, p, k, e);
    SplitTokens(r, p, k, k + |ins|);
    assert n.items[k..k + |ins|] == ins && n.items[k + |ins|..] == its[e..];
  }

  lemma SplitTokens(root: Item, p: seq<nat>, k: nat, e: nat)
    requires IsPath(root, p) && k <= e <= |At(root, p).items|
    ensures var its := At(root, p).items;
      Block(root) == ItemPre(root, p, k) + FlatS(its[k..e]) + (FlatS(its[e..]) + Tail(root, p))
    ensures ItemPos(root, p, k) == |ItemPre(root, p, k)| && ItemPos(root, p, e) == |ItemPre(root, p, k)| + |FlatS(At(root, p).items[k..e])|
  {
    hide Flat, Pre, Post, Enc, FlatS, Block, Tail, ItemPre;
    var its := At(root, p).items;
    BlockAt(root, p, k);
    assert its[k..] == its[k..e] + its[e..];
    FlatSConcat(its[k..e], its[e..]);
    Assoc(ItemPre(root, p, k), FlatS(its[k..e]), FlatS(its[e..]));
    Assoc(ItemPre(root, p, k) + FlatS(its[k..e]), FlatS(its[e..]), Tail(root, p));
    assert its[..e] == its[..k] + its[k..e];
    FlatSConcat(its[..k], its[k..e]);
  }

  /** fdt_nop_property: fdt_delprop's tree, in place. */
  method NopProperty(f: Fdt, nodeoffset: nat, name: bytes, ghost p: seq<nat>) returns (err: int)
    requires f.Valid() && IsPath(f.root, p) && nodeoffset == NodeOff(f.root, p) && NoNul(name)
    modifies f`root, f.mem
    ensures f.Valid() && f.Strings() == old(f.Strings())
    ensures var d := old(Mean(f.Strings(), At(f.root, p)));
      && err == (if FindD(d.props, name) < |d.props| then 0 else -FDT_ERR_NOTFOUND)
      && (err == 0 ==> NodeBecame(old(f.root), old(f.Strings()), f, p, d.(props := DelP(d.props, name))))
    ensures err == 0 ==> var k := old(FindP(f.Strings(), At(f.root, p).items, name));
      NoppedOut(f.hdr, old(f.mem[..]), f.mem[..], old(f.root), p, k, k + 1, f.root)
    ensures err != 0 ==> f.mem[..] == old(f.mem[..]) && f.root == old(f.root)
  {
    hide Enc, FlatS, ItemPre, StringsOf, Put, At, Wf, FindP, FindD, DelP, Replaced, NodeBecame, Words, Tail, TagAlign, Occurs, KidsOf, PropsOf, BE32, OffsetsKept, Stored;
    ghost var root, t := f.root, f.Strings();
    WfLaid(f.hdr, f.mem[..], root, f.rsv);
    ghost var k := FindP(t, At(root, p).items, name);
    FindBoth(t, At(root, p).items, name);
    var offset, len := GetProperty(f, nodeoffset, name, p);
    if offset < 0 { return len; }
    PropBytes(f.hdr, f.mem[..], root, f.rsv, p, k);
    AlignMore(len);
    var prop := f.hdr.offStruct + offset;
    NopItems(f, prop, len + 12, p, k, k + 1);
    ghost var n := TagAlign(len + 12) / 4;
    ReplacedWf(f.hdr, f.mem[..], root, f.rsv, p, k, k + 1, Nops(n), f.root);
    PropCut(root, t, f.root, p, name, n);
    NopKeepsOffsets(root, p, k, k + 1, n);
    Became(root, t, f, p, Mean(t, At(f.root, p)));
    return 0;
  }

  lemma AlignMore(x: nat)
    ensures TagAlign(x + 12) == 12 + TagAlign(x)
  {
  }

  // ------------------------------------------------------------------ removing a node

  function DelKid(d: DT, c: nat): DT
    requires c < |d.kids|
  {
    d.(kids := d.kids[..c] + d.kids[c + 1..])
  }

  /** All other children keep their order. */
  lemma DelKidPlaces(d: DT, c: nat)
    requires c < |d.kids|
    ensures var e := DelKid(d, c);
      && e.name == d.name && e.props == d.props && |e.kids| == |d.kids| - 1
      && (forall i :: 0 <= i < c ==> e.kids[i] == d.kids[i]) && (forall i :: c <= i < |e.kids| ==> e.kids[i] == d.kids[i + 1])
  {
  }

  lemma KidCut(root: Item, t: bytes, r: Item, p: seq<nat>, k: nat, n: nat)
    requires OkItem(t, root) && root.Node? && IsPath(root, p) && k < |At(root, p).items| && At(root, p).items[k].Node?
    requires r == Put(root, p, Replace(At(root, p), k, k + 1, Nops(n)))
    ensures Edited(root, t, r, t, p)
    ensures var d, c := Mean(t, At(root, p)), Meaning.Nodes(At(root, p).items[..k]);
      c < |d.kids| && d.kids[c] == Mean(t, At(root, p).items[k]) && Mean(t, At(r, p)) == DelKid(d, c)
  {
    hide PropsOf, KidsOf, Nodes;
    var m := At(root, p);
    PutFrame(root, p, Replace(m, k, k + 1, Nops(n)));
    assert t[..|t|] == t;
    ReplaceProps(t, m, k, k + 1, Nops(n));
    ReplaceProps(t, m, k, k + 1, [m.items[k]]);
    assert Replace(m, k, k + 1, [m.items[k]]).items == m.items;
    NopsMeanNothing(t, Nops(n));
    NodesKids(t, m.items[..k]);
    OneKid(t, m.items[k]);
    var x := Mean(t, m.items[k]);
    MidSeq(KidsOf(t, m.items[..k]), x, KidsOf(t, m.items[k + 1..]), x);
  }

  lemma OneKid(t: bytes, it: Item)
    requires it.Node?
    ensures KidsOf(t, [it]) == [Mean(t, it)] && PropsOf(t, [it]) == []
  {
  }

  /** Where the node that is item k of the node at p ends. */
  method KidEnd(f: Fdt, nodeoffset: nat, ghost p: seq<nat>, ghost k: nat) returns (endoffset: int)
    requires f.Valid() && IsPath(f.root, p) && k < |At(f.root, p).items| && At(f.root, p).items[k].Node?
    requires nodeoffset == ItemOff(f.root, p, k)
    ensures endoffset == ItemOff(f.root, p, k + 1) == nodeoffset + |Enc(FlatS(At(f.root, p).items[k..k + 1]))| && endoffset % 4 == 0 == nodeoffset % 4
  {
    hide Flat, FlatS, Pre, Post, Block, Enc, Tail, ItemPre, StringsOf, At, IsPath, NodePos, ItemPos, EndOf, Closed, Probed, Laid, Occurs, Wf, OkItem;
    ghost var root := f.root;
    ItemTokens(root, p, k);
    RestTokens(root, p, k + 1);
    NodeFacts(f, p + [k]);
    EndOfAt(root, p + [k]);
    SplitAt(root, p, k, k + 1);
    endoffset := NodeEndOffset(f, nodeoffset, Block(root), ItemPos(root, p, k));
    OffAlignedAt(Block(root), ItemPos(root, p, k));
    OffAlignedAt(Block(root), ItemPos(root, p, k + 1));
  }

  lemma OffAlignedAt(ts: seq<Tok>, i: nat)
    requires OkToks(ts) && i <= |ts|
    ensures Off(ts, i) % 4 == 0
  {
    assert OkToks(ts[..i]);
    EncAligned(ts[..i]);
  }

  method DelNode(f: Fdt, nodeoffset: nat, ghost p: seq<nat>, ghost k: nat) returns (err: int)
    requires f.Valid() && IsPath(f.root, p) && k < |At(f.root, p).items| && At(f.root, p).items[k].Node?
    requires nodeoffset == ItemOff(f.root, p, k)
    modifies f, f.mem
    ensures err == 0 && f.Valid() && f.rsv == old(f.rsv) && f.Strings() == old(f.Strings())
    ensures f.root == Put(old(f.root), p, Replace(old(At(f.root, p)), k, k + 1, []))
    ensures var d, c := old(Mean(f.Strings(), At(f.root, p))), Meaning.Nodes(old(At(f.root, p).items)[..k]);
      c < |d.kids| && NodeBecame(old(f.root), old(f.Strings()), f, p, DelKid(d, c))
    ensures SplicedOnly(old(f.hdr), old(f.mem[..]), f.hdr, f.mem[..], old(HoleAt(f.hdr, f.root, p, k)),
                        |Enc(FlatS(old(At(f.root, p)).items[k..k + 1]))|, 0)
  {
    hide Enc, FlatS, ItemPre, StringsOf, Put, At, Wf, Replaced, NodeBecame, Tail, Occurs, KidsOf, PropsOf, SplicedOnly, DelKid;
    ghost var root, t := f.root, f.Strings();
    WfLaid(f.hdr, f.mem[..], root, f.rsv);
    if f.ChkExtra() && RwProbe(f) != 0 { return RwProbe(f); }
    var endoffset := KidEnd(f, nodeoffset, p, k);
    if endoffset < 0 { return endoffset; }
    err := CutItems(f, f.hdr.offStruct + nodeoffset, endoffset - nodeoffset, p, k, k + 1);
    ReplacedWf(f.hdr, f.mem[..], root, f.rsv, p, k, k + 1, Nops(0), f.root);
    KidCut(root, t, f.root, p, k, 0);
    Became(root, t, f, p, Mean(t, At(f.root, p)));
  }

  /** fdt_nop_node: fdt_del_node's tree, in place. */
  method NopNode(f: Fdt, nodeoffset: nat, ghost p: seq<nat>, ghost k: nat) returns (err: int)
    requires f.Valid() && IsPath(f.root, p) && k < |At(f.root, p).items| && At(f.root, p).items[k].Node?
    requires nodeoffset == ItemOff(f.root, p, k)
    modifies f`root, f.mem
    ensures err == 0 && f.Valid() && f.Strings() == old(f.Strings())
    ensures var d, c := old(Mean(f.Strings(), At(f.root, p))), Meaning.Nodes(old(At(f.root, p).items)[..k]);
      c < |d.kids| && NodeBecame(old(f.root), old(f.Strings()), f, p, DelKid(d, c))
    ensures NoppedOut(f.hdr, old(f.mem[..]), f.mem[..], old(f.root), p, k, k + 1, f.root)
  {
    hide Enc, FlatS, ItemPre, StringsOf, Put, At, Wf, Replaced, NodeBecame, Tail, Occurs, KidsOf, PropsOf, OffsetsKept, Stored, DelKid, OffsetPtr, IsPath, Replace, OkItem, Nops, Mean;
    ghost var root, t := f.root, f.Strings();
    WfLaid(f.hdr, f.mem[..], root, f.rsv);
    var endoffset := KidEnd(f, nodeoffset, p, k);
    if endoffset < 0 { return endoffset; }
    Fits(f.hdr, f.mem[..], root, f.rsv, p, k, k + 1);
    OffFits(f.hdr, f.mem[..], root, f.rsv, p, k);
    var start := OffsetPtr(f, nodeoffset, 0);
    NopItems(f, start.at, endoffset - nodeoffset, p, k, k + 1);
    ghost var n := TagAlign(endoffset - nodeoffset) / 4;
    ReplacedWf(f.hdr, f.mem[..], root, f.rsv, p, k, k + 1, Nops(n), f.root);
    KidCut(root, t, f.root, p, k, n);
    NopKeepsOffsets(root, p, k, k + 1, n);
    Became(root, t, f, p, Mean(t, At(f.root, p)));
    return 0;
  }

  lemma OffFits(h: Header, m: bytes, root: Item, l: seq<Rsv>, p: seq<nat>, k: nat)
    requires Wf(h, m, root, l) && IsPath(root, p) && k <= |At(root, p).items|
    ensures ItemOff(root, p, k) <= h.sizeStruct
  {
    hide Enc, FlatS, ItemPre, Tail, StringsOf, At;
    SplitOccurs(h, m, root, l, p, k, k);
  }
}
