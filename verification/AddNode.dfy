/**
  fdt_subnode_offset, fdt_add_subnode and fdt_find_or_add_subnode on the tree.
 */
module AddNode {
  import opened Bytes
  import opened Tokens
  import opened Tree
  import opened Meaning
  import opened Blob
  import opened Scan
  import opened Walk
  import opened TreeWalk
  import opened Props
  import opened Edit
  import opened Splicing
  import opened Effects
  import opened Rw
  import opened PropWrites
  import opened Cut
  import opened NodeEdits

  /** fdt_subnode_offset: the first child the unit-address rule accepts. */
  method SubnodeOffset(f: Fdt, parentoffset: nat, name: bytes, ghost p: seq<nat>) returns (r: int)
    requires f.Valid() && IsPath(f.root, p) && parentoffset == NodeOff(f.root, p) && NoNul(name)
    ensures var its, k := At(f.root, p).items, KidIdx(At(f.root, p).items, Named(name));
      if k < |its| then IsPath(f.root, p + [k]) && r == NodeOff(f.root, p + [k]) else r == -FDT_ERR_NOTFOUND
  {
    hide Flat, FlatS, Pre, Post, Block, Enc, Tail, ItemPre, StringsOf, Wf, At;
    ghost var k := KidIdx(At(f.root, p).items, Named(name));
    NodeFacts(f, p);
    FindKidAt(f.root, p, Named(name));
    NodeTokens(f.root, p);
    if k < |At(f.root, p).items| {
      ItemTokens(f.root, p, k);
    }
    r := SubnodeOffsetNamelen(f, parentoffset, name, Block(f.root), NodePos(f.root, p));
  }

  // ------------------------------------------------------------------ the place of a new node

  /** Skipping BEGIN_NODE, properties and NOPs: the offset of the first child, or of the node's end. */
  method AfterProps(f: Fdt, parentoffset: nat, ghost p: seq<nat>) returns (offset: nat)
    requires f.Valid() && IsPath(f.root, p) && parentoffset == NodeOff(f.root, p)
    ensures offset == ItemOff(f.root, p, KidIdx(At(f.root, p).items, Any))
  {
    hide Flat, FlatS, Pre, Post, Block, Enc, Tail, ItemPre, StringsOf, Wf, At, ItemPos, ItemOff, Off;
    ghost var root, its, ts := f.root, At(f.root, p).items, Block(f.root);
    NodeFacts(f, p);
    FirstItem(root, p);
    FirstPos(root, p);
    var tag, nextoffset := NextTag(f, parentoffset, ts, NodePos(root, p));
    offset := nextoffset;
    tag := FDT_NOP;
    ghost var k := 0;
    while tag == FDT_PROP || tag == FDT_NOP
      invariant k <= |its| && forall i :: 0 <= i < k ==> !its[i].Node?
      invariant if tag == FDT_PROP || tag == FDT_NOP then nextoffset == ItemOff(root, p, k)
                else offset == ItemOff(root, p, k) && (k == |its| || its[k].Node?)
      decreases tag == FDT_PROP || tag == FDT_NOP, |its| - k
    {
      offset := nextoffset;
      RestTokens(root, p, k);
      tag, nextoffset := NextTag(f, offset, ts, ItemPos(root, p, k));
      if k < |its| {
        ItemTokens(root, p, k);
        if its[k].Node? {
          NodeParts(ts, ItemPos(root, p, k), its[k]);
        } else {
          LeafTok(ts, ItemPos(root, p, k), its[k]);
          RestTokens(root, p, k + 1);
          k := k + 1;
        }
      }
    }
    KidIdxIs(its, k);
  }

  lemma FirstPos(root: Item, p: seq<nat>)
    requires IsPath(root, p)
    ensures ItemPos(root, p, 0) == NodePos(root, p) + 1
  {
    assert At(root, p).items[..0] == [];
  }

  lemma KidIdxIs(its: seq<Item>, k: nat)
    requires k <= |its| && (k == |its| || its[k].Node?) && forall i :: 0 <= i < k ==> !its[i].Node?
    ensures k == KidIdx(its, Any)
  {
  }

  // ------------------------------------------------------------------ the record of an empty node

  function NewNode(name: bytes): (it: Item)
    ensures it.Node?
  {
    Item.Node(name, Zeros(TagAlign(|name| + 1) - |name| - 1), [])
  }

  lemma NewNodeBytes(name: bytes)
    ensures Enc(FlatS([NewNode(name)])) == BE32(FDT_BEGIN_NODE) + (name + Zeros(TagAlign(|name| + 1) - |name|) + BE32(FDT_END_NODE))
    ensures |Enc(FlatS([NewNode(name)]))| == 8 + TagAlign(|name| + 1)
  {
    hide BE32;
    var n, pad := NewNode(name), Zeros(TagAlign(|name| + 1) - |name| - 1);
    FlatSOne(n);
    assert FlatS(n.items) == [];
    assert Flat(n) == [TBegin(name, pad)] + [TEnd];
    EncConcat([TBegin(name, pad)], [TEnd]);
    EncOne(TBegin(name, pad));
    EncOne(TEnd);
    assert [0] + pad == Zeros(TagAlign(|name| + 1) - |name|);
    assert name + [0] + pad == name + ([0] + pad);
    assert BE32(FDT_END_NODE) + [] == BE32(FDT_END_NODE);
    Assoc(BE32(FDT_BEGIN_NODE), name + Zeros(TagAlign(|name| + 1) - |name|), BE32(FDT_END_NODE));
  }

  /** The four stores of fdt_add_subnode_namelen. */
  function NodeStored(m: bytes, at: nat, name: bytes): (r: bytes)
    requires at + 8 + TagAlign(|name| + 1) <= |m|
    ensures |r| == |m|
  {
    var n4 := TagAlign(|name| + 1);
    Written(Written(Written(Written(m, at, BE32(FDT_BEGIN_NODE)), at + 4, Zeros(n4)), at + 4, name), at + 4 + n4, BE32(FDT_END_NODE))
  }

  lemma NodeStoredIs(m: bytes, at: nat, name: bytes)
    requires at + 8 + TagAlign(|name| + 1) <= |m|
    ensures Stored(m, NodeStored(m, at, name), at, Enc(FlatS([NewNode(name)])))
  {
    hide BE32, Enc, FlatS, Written, NewNode;
    var n4 := TagAlign(|name| + 1);
    var a, z, e := BE32(FDT_BEGIN_NODE), Zeros(n4), BE32(FDT_END_NODE);
    NewNodeBytes(name);
    WrittenTwice(m, at, a, z);
    assert a + z == a + Zeros(|name|) + Zeros(n4 - |name|);
    Overwrite(m, at, a, Zeros(|name|), Zeros(n4 - |name|), name);
    assert a + name + Zeros(n4 - |name|) == a + (name + Zeros(n4 - |name|));
    WrittenTwice(m, at, a + (name + Zeros(n4 - |name|)), e);
    Assoc(a, name + Zeros(n4 - |name|), e);
  }

  lemma Overwrite(m: bytes, at: nat, a: bytes, b: bytes, c: bytes, b': bytes)
    requires at + |a| + |b| + |c| <= |m| && |b'| == |b|
    ensures Written(Written(m, at, a + b + c), at + |a|, b') == Written(m, at, a + b' + c)
  {
  }

  // ------------------------------------------------------------------ fdt_add_subnode_namelen

  function AddKid(d: DT, name: bytes): DT {
    d.(kids := [DT(name, [], [])] + d.kids)
  }

  /** The new child has nothing in it and comes first; the old ones keep their order. */
  lemma AddKidPlaces(d: DT, name: bytes)
    ensures var e := AddKid(d, name);
      && e.name == d.name && e.props == d.props && |e.kids| == |d.kids| + 1
      && e.kids[0].name == name && e.kids[0].props == [] && e.kids[0].kids == []
      && forall i :: 0 <= i < |d.kids| ==> e.kids[i + 1] == d.kids[i]
  {
  }

  lemma NodeInFront(t: bytes, a: seq<Item>, x: Item, b: seq<Item>)
    requires x.Node? && forall i :: 0 <= i < |a| ==> !a[i].Node?
    ensures PropsOf(t, a + [x] + b) == PropsOf(t, a + b) && KidsOf(t, a + [x] + b) == [Mean(t, x)] + KidsOf(t, a + b)
  {
    hide PropsOf, KidsOf, Mean;
    NoKids(t, a);
    OneKid(t, x);
    PropsOfConcat(t, a + [x], b);
    PropsOfConcat(t, a, [x]);
    PropsOfConcat(t, a, b);
    KidsOfConcat(t, a + [x], b);
    KidsOfConcat(t, a, [x]);
    KidsOfConcat(t, a, b);
    assert PropsOf(t, a) + [] == PropsOf(t, a);
    assert [] + [Mean(t, x)] == [Mean(t, x)] && [] + KidsOf(t, b) == KidsOf(t, b);
  }

  lemma KidAddedHere(n: Item, t: bytes, name: bytes)
    requires OkItem(t, n) && n.Node? && NoNul(name)
    ensures var k := KidIdx(n.items, Any); var m := Replace(n, k, k, [NewNode(name)]);
      PropsFirst(m.items) && OkItems(t, [NewNode(name)]) && Mean(t, m) == AddKid(Mean(t, n), name)
  {
    hide Flat, FlatS, Enc, PropsOf, KidsOf, NewNode;
    var x, k := NewNode(name), KidIdx(n.items, Any);
    NewFirst(n, k, x);
    NewMeans(t, name);
    assert n.items == n.items[..k] + n.items[k..];
    NodeInFront(t, n.items[..k], x, n.items[k..]);
  }

  /** An empty node before the first child. */
  lemma KidAdded(root: Item, t: bytes, r: Item, p: seq<nat>, name: bytes)
    requires OkItem(t, root) && root.Node? && IsPath(root, p) && NoNul(name)
    requires var k := KidIdx(At(root, p).items, Any); r == Put(root, p, Replace(At(root, p), k, k, [NewNode(name)]))
    ensures Edited(root, t, r, t, p) && OkItems(t, [NewNode(name)])
    ensures var k := KidIdx(At(root, p).items, Any); PropsFirst(Replace(At(root, p), k, k, [NewNode(name)]).items)
    ensures Mean(t, At(r, p)) == AddKid(Mean(t, At(root, p)), name)
    ensures var k := KidIdx(At(root, p).items, Any);
      IsPath(r, p + [k]) && At(r, p + [k]) == NewNode(name) && NodeOff(r, p + [k]) == ItemOff(root, p, k)
  {
    hide Flat, FlatS, Enc, PropsOf, KidsOf, NewNode, Put, At, Mean;
    var n, k := At(root, p), KidIdx(At(root, p).items, Any);
    OkPut(t, root, p, root);
    assert t[..|t|] == t;
    PutFrame(root, p, Replace(n, k, k, [NewNode(name)]));
    KidAddedHere(n, t, name);
    ReplacedBlock(root, p, k, k, [NewNode(name)]);
    KidPath(r, p, k);
  }

  lemma NewMeans(t: bytes, name: bytes)
    requires NoNul(name)
    ensures Mean(t, NewNode(name)) == DT(name, [], []) && OkItem(t, NewNode(name)) && PropsOf(t, []) == [] && KidsOf(t, []) == []
  {
  }

  lemma {:induction false} NoKids(t: bytes, its: seq<Item>)
    requires forall i :: 0 <= i < |its| ==> !its[i].Node?
    ensures KidsOf(t, its) == []
  {
    if its != [] {
      NoKids(t, its[1..]);
    }
  }

  lemma NewFirst(n: Item, k: nat, x: Item)
    requires n.Node? && PropsFirst(n.items) && k == KidIdx(n.items, Any) && x.Node?
    ensures PropsFirst(Replace(n, k, k, [x]).items)
  {
    var r := Replace(n, k, k, [x]).items;
    assert forall i :: 0 <= i < k ==> r[i] == n.items[i] && !r[i].Node?;
    assert forall j :: k < j < |r| ==> r[j] == n.items[j - 1] && !r[j].Prop?;
  }

  /** fdt_splice_struct_ and the four stores. */
  method InsertNode(f: Fdt, nh: nat, name: bytes, ghost p: seq<nat>) returns (err: int)
    requires f.Valid() && IsPath(f.root, p) && NoNul(name) && |name| < MAX_VALUE
    requires nh == HoleAt(f.hdr, f.root, p, KidIdx(At(f.root, p).items, Any))
    modifies f, f.mem
    ensures err == if old(DataSize(f.hdr)) + 8 + TagAlign(|name| + 1) > old(f.hdr.totalsize) then -FDT_ERR_NOSPACE else 0
    ensures f.rsv == old(f.rsv) && f.Strings() == old(f.Strings()) && f.Valid()
    ensures err != 0 ==> f.hdr == old(f.hdr) && f.mem[..] == old(f.mem[..]) && f.root == old(f.root)
    ensures err == 0 ==> var k := KidIdx(old(At(f.root, p)).items, Any);
      f.root == Put(old(f.root), p, Replace(old(At(f.root, p)), k, k, [NewNode(name)]))
    ensures err == 0 ==> InsertedOnly(old(f.hdr), old(f.mem[..]), f.hdr, f.mem[..], nh, 8 + TagAlign(|name| + 1))
  {
    hide Enc, FlatS, ItemPre, StringsOf, Put, At, Wf, Tail, TagAlign, Opened, Replaced, Written, BE32, NewNode, IsPath, InsertedOnly, SplicedOnly, Replace, KidIdx, OkItem, HoleAt;
    ghost var g, w, root, t := f.hdr, f.mem[..], f.root, f.Strings();
    ghost var k := KidIdx(At(root, p).items, Any);
    var nodelen := 4 + TagAlign(|name| + 1) + 4;
    WfLaid(g, w, root, f.rsv);
    assert At(root, p).items[k..k] == [];
    EmptyRun();
    err := SpliceItems(f, nh, 0, nodelen, p, k, k);
    if err != 0 { return; }
    ghost var h, m := f.hdr, f.mem[..];
    OpenedIs(h, m, g, w, root, f.rsv, [], p, k, k, nodelen);
    StoreWord(f.mem, nh, FDT_BEGIN_NODE);
    MemZero(f.mem, nh + 4, TagAlign(|name| + 1));
    Store(f.mem, nh + 4, name);
    StoreWord(f.mem, nh + nodelen - 4, FDT_END_NODE);
    NodeInserted(h, m, g, w, root, f.rsv, p, name);
    f.root := Put(root, p, Replace(At(root, p), k, k, [NewNode(name)]));
  }

  lemma EmptyRun()
    ensures |Enc(FlatS([]))| == 0
  {
  }

  /** Bytes before at stay, bytes from at on move up by n, and n bytes between are new. */
  ghost predicate InsertedOnly(h: Header, m: bytes, h': Header, m': bytes, at: nat, n: nat) {
    && h' == StructGrown(h, 0, n) && at <= DataSize(h) && DataSize(h) + n <= |m| == |m'|
    && m'[..at] == m[..at] && m'[at + n..DataSize(h) + n] == m[at..DataSize(h)]
  }

  lemma NodeInserted(h: Header, m: bytes, g: Header, w: bytes, root: Item, l: seq<Rsv>, p: seq<nat>, name: bytes)
    requires root.Node? && IsPath(root, p) && NoNul(name)
    requires var k := KidIdx(At(root, p).items, Any);
      && Opened(h, m, g, w, root, l, [], p, k, k, 8 + TagAlign(|name| + 1))
      && SplicedOnly(g, w, h, m, HoleAt(g, root, p, k), 0, 8 + TagAlign(|name| + 1))
    ensures var k := KidIdx(At(root, p).items, Any); var at := HoleAt(g, root, p, k);
      && at + 8 + TagAlign(|name| + 1) <= |m|
      && Wf(h, NodeStored(m, at, name), Put(root, p, Replace(At(root, p), k, k, [NewNode(name)])), l)
      && StringsOf(h, NodeStored(m, at, name)) == StringsOf(g, w)
      && InsertedOnly(g, w, h, NodeStored(m, at, name), at, 8 + TagAlign(|name| + 1))
  {
    hide Enc, FlatS, ItemPre, StringsOf, Put, At, Wf, Tail, TagAlign, Opened, Replaced, Written, BE32, NewNode, NodeStored, IsPath, KidIdx, OkItem, PropsFirst, Flat;
    var k := KidIdx(At(root, p).items, Any);
    var at, n := HoleAt(g, root, p, k), 8 + TagAlign(|name| + 1);
    OpenedIs(h, m, g, w, root, l, [], p, k, k, n);
    WfLaid(g, w, root, l);
    NodeStoredIs(m, at, name);
    NewNodeBytes(name);
    var b := Enc(FlatS([NewNode(name)]));
    OpenedWrite(h, m, g, w, root, l, [], p, k, k, n, at, b);
    WrittenHolds(m, at, b);
    var r := Put(root, p, Replace(At(root, p), k, k, [NewNode(name)]));
    KidAdded(root, StringsOf(g, w), r, p, name);
    assert StringsOf(g, w) + [] == StringsOf(g, w);
    TornClose(h, Written(m, at, b), g, w, root, l, [], p, k, k, [NewNode(name)]);
    OpenedIs(h, Written(m, at, b), g, w, root, l, [], p, k, k, n);
    ReplacedWf(h, Written(m, at, b), root, l, p, k, k, [NewNode(name)], r);
    InsertShape(w, at, n, DataSize(g), b);
  }

  lemma InsertShape(w: bytes, at: nat, n: nat, end: nat, b: bytes)
    requires at <= end && end + n <= |w| && |b| == n
    ensures var m := Written(Moved(w, at + n, at, end - at), at, b); m[..at] == w[..at] && m[at + n..end + n] == w[at..end]
  {
    var v := Moved(w, at + n, at, end - at);
    var m := Written(v, at, b);
    assert m[at + n..end + n] == v[at + n..end + n];
    Middle(w[..at + n], w[at..end], w[end + n..]);
  }

  /** fdt_add_subnode_namelen; the new node is the first child, at path p + [k]. */
  method AddSubnode(f: Fdt, parentoffset: nat, name: bytes, ghost p: seq<nat>) returns (r: int)
    requires f.Valid() && IsPath(f.root, p) && parentoffset == NodeOff(f.root, p) && NoNul(name) && |name| < MAX_VALUE
    modifies f, f.mem
    ensures f.Valid() && f.rsv == old(f.rsv) && f.Strings() == old(f.Strings())
    ensures var its := old(At(f.root, p)).items;
      if KidIdx(its, Named(name)) < |its| then r == -FDT_ERR_EXISTS
      else if old(DataSize(f.hdr)) + 8 + TagAlign(|name| + 1) > old(f.hdr.totalsize) then r == -FDT_ERR_NOSPACE
      else r == ItemOff(old(f.root), p, KidIdx(its, Any))
    ensures r < 0 ==> f.hdr == old(f.hdr) && f.mem[..] == old(f.mem[..]) && f.root == old(f.root)
    ensures r >= 0 ==> NodeBecame(old(f.root), old(f.Strings()), f, p, AddKid(old(Mean(f.Strings(), At(f.root, p))), name))
    ensures r >= 0 ==> var k := KidIdx(old(At(f.root, p)).items, Any);
      && f.root == Put(old(f.root), p, Replace(old(At(f.root, p)), k, k, [NewNode(name)]))
      && IsPath(f.root, p + [k]) && At(f.root, p + [k]) == NewNode(name) && r == NodeOff(f.root, p + [k])
    ensures r >= 0 ==> InsertedOnly(old(f.hdr), old(f.mem[..]), f.hdr, f.mem[..], old(f.hdr.offStruct) + r, 8 + TagAlign(|name| + 1))
  {
    hide Enc, FlatS, ItemPre, StringsOf, Put, At, Wf, TagAlign, NewNode, InsertedOnly, NodeBecame, Mean;
    ghost var root, t := f.root, f.Strings();
    WfLaid(f.hdr, f.mem[..], root, f.rsv);
    if f.ChkExtra() && RwProbe(f) != 0 { return RwProbe(f); }
    var offset := SubnodeOffset(f, parentoffset, name, p);
    if offset >= 0 { return -FDT_ERR_EXISTS; }
    if offset != -FDT_ERR_NOTFOUND { return offset; }
    offset := AfterProps(f, parentoffset, p);
    var err := InsertNode(f, f.hdr.offStruct + offset, name, p);
    if err != 0 { return err; }
    KidAdded(root, t, f.root, p, name);
    Became(root, t, f, p, Mean(t, At(f.root, p)));
    return offset;
  }

  /** Adding a node and deleting it at the returned offset restores the header and every data byte. */
  method AddThenDelete(f: Fdt, parentoffset: nat, name: bytes, ghost p: seq<nat>) returns (r: int)
    requires f.Valid() && IsPath(f.root, p) && parentoffset == NodeOff(f.root, p) && NoNul(name) && |name| < MAX_VALUE
    modifies f, f.mem
    ensures f.Valid() && f.root == old(f.root) && f.rsv == old(f.rsv)
    ensures f.hdr == old(f.hdr) && f.mem[..DataSize(f.hdr)] == old(f.mem[..DataSize(f.hdr)])
  {
    hide Enc, FlatS, ItemPre, StringsOf, Put, At, Wf, TagAlign, NewNode, InsertedOnly, SplicedOnly, NodeBecame, Mean, DelKid, AddKid, KidsOf;
    ghost var h, m, root := f.hdr, f.mem[..], f.root;
    ghost var k := KidIdx(At(root, p).items, Any);
    WfLaid(h, m, root, f.rsv);
    r := AddSubnode(f, parentoffset, name, p);
    if r < 0 { return; }
    ghost var h1, m1, r1 := f.hdr, f.mem[..], f.root;
    AddedNode(root, p, name);
    InsertedHdr(h, m, h1, m1, h.offStruct + r, 8 + TagAlign(|name| + 1));
    var err := DelNode(f, r, p, k);
    DeletedNode(root, p, k, NewNode(name));
    BytesBack(h, m, h1, m1, f.hdr, f.mem[..], h.offStruct + r, 8 + TagAlign(|name| + 1));
  }

  lemma AddedNode(root: Item, p: seq<nat>, name: bytes)
    requires root.Node? && IsPath(root, p)
    ensures var k := KidIdx(At(root, p).items, Any);
      var r := Put(root, p, Replace(At(root, p), k, k, [NewNode(name)]));
      && IsPath(r, p) && k < |At(r, p).items| && At(r, p).items[k] == NewNode(name) && ItemOff(r, p, k) == ItemOff(root, p, k)
      && |Enc(FlatS(At(r, p).items[k..k + 1]))| == 8 + TagAlign(|name| + 1)
  {
    hide Enc, FlatS, Put, At, NewNode, TagAlign, ItemPre;
    var k := KidIdx(At(root, p).items, Any);
    var n := Replace(At(root, p), k, k, [NewNode(name)]);
    ReplacedBlock(root, p, k, k, [NewNode(name)]);
    assert n.items[k..k + 1] == [NewNode(name)];
    NewNodeBytes(name);
  }

  lemma DeletedNode(root: Item, p: seq<nat>, k: nat, x: Item)
    requires root.Node? && IsPath(root, p) && k <= |At(root, p).items|
    ensures var r := Put(root, p, Replace(At(root, p), k, k, [x]));
      && IsPath(r, p) && k < |At(r, p).items| && Put(r, p, Replace(At(r, p), k, k + 1, [])) == root
  {
    var n := At(root, p);
    var m := Replace(n, k, k, [x]);
    PutFrame(root, p, m);
    assert m.items[..k] == n.items[..k] && m.items[k + 1..] == n.items[k..];
    assert Replace(m, k, k + 1, []).items == n.items;
    PutPut(root, p, m, n);
  }

  lemma InsertedHdr(h: Header, m: bytes, h': Header, m': bytes, at: nat, n: nat)
    requires InsertedOnly(h, m, h', m', at, n)
    ensures h'.offStruct == h.offStruct && GrewBy(h, h', n)
  {
  }

  lemma BytesBack(h: Header, m: bytes, h1: Header, m1: bytes, h2: Header, m2: bytes, at: nat, n: nat)
    requires h.sizeStruct <= h.offStrings && InsertedOnly(h, m, h1, m1, at, n) && SplicedOnly(h1, m1, h2, m2, at, n, 0)
    ensures h2 == h && m2[..DataSize(h)] == m[..DataSize(h)]
  {
    var end := DataSize(h);
    assert m2[..at] == m1[..at];
    assert m2[at..end] == m1[at + n..end + n];
    assert m2[..end] == m2[..at] + m2[at..end] && m[..end] == m[..at] + m[at..end];
  }

  /** fdt_find_or_add_subnode (fdt_support.c): the child the name selects, an empty one if there was none. */
  method FindOrAddSubnode(f: Fdt, parentoffset: nat, name: bytes, ghost p: seq<nat>) returns (r: int)
    requires f.Valid() && IsPath(f.root, p) && parentoffset == NodeOff(f.root, p) && NoNul(name) && |name| < MAX_VALUE
    modifies f, f.mem
    ensures f.Valid() && f.rsv == old(f.rsv) && f.Strings() == old(f.Strings())
    ensures var its := old(At(f.root, p)).items; var k := KidIdx(its, Named(name));
      if k < |its| then f.root == old(f.root) && IsPath(f.root, p + [k]) && r == NodeOff(f.root, p + [k])
      else if r < 0 then r == -FDT_ERR_NOSPACE && f.root == old(f.root)
      else NodeBecame(old(f.root), old(f.Strings()), f, p, AddKid(old(Mean(f.Strings(), At(f.root, p))), name)) &&
           IsPath(f.root, p + [KidIdx(its, Any)]) && r == NodeOff(f.root, p + [KidIdx(its, Any)]) &&
           At(f.root, p + [KidIdx(its, Any)]) == NewNode(name) &&
           f.root == Put(old(f.root), p, Replace(old(At(f.root, p)), KidIdx(its, Any), KidIdx(its, Any), [NewNode(name)]))
    ensures var n := 8 + TagAlign(|name| + 1);
      if r < 0 then old(DataSize(f.hdr)) + n > old(f.hdr.totalsize) else f.hdr == old(f.hdr) || GrewBy(old(f.hdr), f.hdr, n)
  {
    hide StringsOf, Put, At, Wf, TagAlign, NewNode, InsertedOnly, NodeBecame, Mean, NodeOff, ItemOff;
    ghost var h, m := f.hdr, f.mem[..];
    r := SubnodeOffset(f, parentoffset, name, p);
    if r == -FDT_ERR_NOTFOUND {
      r := AddSubnode(f, parentoffset, name, p);
      if r >= 0 {
        InsertedHdr(h, m, f.hdr, f.mem[..], h.offStruct + r, 8 + TagAlign(|name| + 1));
      }
    }
  }
}
