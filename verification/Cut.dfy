/**
  Removing items: fdt_delprop and fdt_del_node splice them out, fdt_nop_property and fdt_nop_node
  overwrite them with NOP tags.
 */
module Cut {
  import opened Bytes
  import opened Tokens
  import opened Tree
  import opened Meaning
  import opened Blob
  import opened TreeWalk
  import opened Props
  import opened Edit
  import opened Splicing
  import opened Effects
  import opened Rw
  import opened PropWrites

  function Nops(n: nat): (r: seq<Item>)
    ensures |r| == n && forall i :: 0 <= i < n ==> r[i] == Item.Nop
  {
    if n == 0 then [] else Nops(n - 1) + [Item.Nop]
  }

  function NopBytes(n: nat): (r: bytes)
    ensures |r| == 4 * n
  {
    if n == 0 then [] else NopBytes(n - 1) + BE32(FDT_NOP)
  }

  lemma {:induction false} NopsEnc(n: nat)
    ensures Enc(FlatS(Nops(n))) == NopBytes(n)
  {
    hide BE32;
    if n > 0 {
      NopsEnc(n - 1);
      FlatSConcat(Nops(n - 1), [Item.Nop]);
      FlatSOne(Item.Nop);
      EncConcat(FlatS(Nops(n - 1)), [TNop]);
      EncOne(TNop);
      assert BE32(FDT_NOP) + [] == BE32(FDT_NOP);
    }
  }

  /** fdt_nop_region_ */
  method NopRegion(mem: array<byte>, start: nat, len: nat)
    requires start + TagAlign(len) <= mem.Length
    modifies mem
    ensures mem[..] == Written(old(mem[..]), start, NopBytes(TagAlign(len) / 4))
  {
    hide Written, BE32;
    ghost var m := mem[..];
    var p := start;
    ghost var i := 0;
    assert Written(m, start, []) == m by { WrittenNothing(m, start); }
    while p < start + len
      invariant p == start + 4 * i && 0 <= 4 * i <= TagAlign(len)
      invariant mem[..] == Written(m, start, NopBytes(i))
    {
      StoreWord(mem, p, FDT_NOP);
      WrittenTwice(m, start, NopBytes(i), BE32(FDT_NOP));
      p := p + 4;
      i := i + 1;
    }
  }

  lemma WrittenNothing(m: bytes, at: nat)
    requires at <= |m|
    ensures Written(m, at, []) == m
  {
  }

  /** Taking items away, or putting NOPs in their place, keeps properties before subnodes. */
  lemma CutOrder(n: Item, k: nat, e: nat, nops: seq<Item>)
    requires n.Node? && PropsFirst(n.items) && k <= e <= |n.items| && forall i :: 0 <= i < |nops| ==> nops[i] == Item.Nop
    ensures PropsFirst(Replace(n, k, e, nops).items)
  {
    var r := Replace(n, k, e, nops).items;
    forall i, j | 0 <= i < j < |r| && r[i].Node?
      ensures !r[j].Prop?
    {
      assert r[i] == n.items[if i < k then i else i - k - |nops| + e];
      if j < k || j >= k + |nops| {
        assert r[j] == n.items[if j < k then j else j - k - |nops| + e];
      }
    }
  }

  /** A node whose items k..e became nops, of which there may be none. */
  lemma CutClose(h: Header, m: bytes, g: Header, w: bytes, root: Item, l: seq<Rsv>, p: seq<nat>, k: nat, e: nat, n: nat)
    requires Opened(h, m, g, w, root, l, [], p, k, e, 4 * n) && Occurs(m, HoleAt(g, root, p, k), NopBytes(n))
    ensures Replaced(h, m, root, l, p, k, e, Nops(n), Put(root, p, Replace(At(root, p), k, e, Nops(n))))
    ensures StringsOf(h, m) == StringsOf(g, w)
  {
    hide Enc, FlatS, Wf, ItemPre, Tail, StringsOf, Put, At, Occurs;
    OpenedIs(h, m, g, w, root, l, [], p, k, e, 4 * n);
    WfLaid(g, w, root, l);
    OkPut(StringsOf(g, w), root, p, root);
    CutOrder(At(root, p), k, e, Nops(n));
    NopsEnc(n);
    assert StringsOf(g, w) + [] == StringsOf(g, w);
    TornClose(h, m, g, w, root, l, [], p, k, e, Nops(n));
  }

  /** Splicing out items k..e of the node at p. */
  method CutItems(f: Fdt, at: nat, len: nat, ghost p: seq<nat>, ghost k: nat, ghost e: nat) returns (err: int)
    requires f.Valid() && IsPath(f.root, p) && k <= e <= |At(f.root, p).items|
    requires at == HoleAt(f.hdr, f.root, p, k) && len == |Enc(FlatS(At(f.root, p).items[k..e]))|
    modifies f, f.mem
    ensures err == 0 && f.rsv == old(f.rsv) && f.Strings() == old(f.Strings())
    ensures Replaced(f.hdr, f.mem[..], old(f.root), f.rsv, p, k, e, [], f.root)
    ensures SplicedOnly(old(f.hdr), old(f.mem[..]), f.hdr, f.mem[..], at, len, 0)
  {
    hide Enc, FlatS, ItemPre, Tail, StringsOf, Put, At, Opened, Replaced, HoleAt, SplicedOnly;
    ghost var g, w, root := f.hdr, f.mem[..], f.root;
    WfLaid(g, w, root, f.rsv);
    err := SpliceItems(f, at, len, 0, p, k, e);
    assert err == 0 by { Fits(g, w, root, f.rsv, p, k, e); }
    OpenedIs(f.hdr, f.mem[..], g, w, root, f.rsv, [], p, k, e, 0);
    CutClose(f.hdr, f.mem[..], g, w, root, f.rsv, p, k, e, 0);
    f.root := Put(root, p, Replace(At(root, p), k, e, Nops(0)));
  }

  lemma Fits(h: Header, m: bytes, root: Item, l: seq<Rsv>, p: seq<nat>, k: nat, e: nat)
    requires Wf(h, m, root, l) && IsPath(root, p) && k <= e <= |At(root, p).items|
    ensures HoleAt(h, root, p, k) + |Enc(FlatS(At(root, p).items[k..e]))| <= DataSize(h) <= h.totalsize
  {
    hide Enc, FlatS, ItemPre, Tail, StringsOf, At;
    SplitOccurs(h, m, root, l, p, k, e);
  }

  /** m' is m with v stored at index at. */
  ghost predicate Stored(m: bytes, m': bytes, at: nat, v: bytes) {
    at + |v| <= |m| && m' == Written(m, at, v)
  }

  /** Overwriting items k..e of the node at p with NOP tags: only their own bytes change. */
  method NopItems(f: Fdt, at: nat, len: nat, ghost p: seq<nat>, ghost k: nat, ghost e: nat)
    requires f.Valid() && IsPath(f.root, p) && k <= e <= |At(f.root, p).items|
    requires at == HoleAt(f.hdr, f.root, p, k) && TagAlign(len) == |Enc(FlatS(At(f.root, p).items[k..e]))|
    modifies f`root, f.mem
    ensures f.Strings() == old(f.Strings())
    ensures Replaced(f.hdr, f.mem[..], old(f.root), f.rsv, p, k, e, Nops(TagAlign(len) / 4), f.root)
    ensures Stored(old(f.mem[..]), f.mem[..], at, NopBytes(TagAlign(len) / 4))
  {
    hide Enc, FlatS, ItemPre, Tail, StringsOf, Put, At, Opened, Replaced, HoleAt, Written, Nops, NopBytes;
    ghost var g, w, root, n := f.hdr, f.mem[..], f.root, TagAlign(len) / 4;
    WfOpened(g, w, root, f.rsv, p, k, e);
    OpenedIs(g, w, g, w, root, f.rsv, [], p, k, e, 4 * n);
    OpenedWrite(g, w, g, w, root, f.rsv, [], p, k, e, 4 * n, at, NopBytes(n));
    WrittenHolds(w, at, NopBytes(n));
    NopRegion(f.mem, at, len);
    CutClose(g, f.mem[..], g, w, root, f.rsv, p, k, e, n);
    f.root := Put(root, p, Replace(At(root, p), k, e, Nops(n)));
  }

  // ------------------------------------------------------------------ properties

  /** The item lists ins stands for: nothing, or NOPs. */
  lemma PropCut(root: Item, t: bytes, r: Item, p: seq<nat>, name: bytes, n: nat)
    requires OkItem(t, root) && root.Node? && IsPath(root, p) && FindP(t, At(root, p).items, name) < |At(root, p).items|
    requires var k := FindP(t, At(root, p).items, name); r == Put(root, p, Replace(At(root, p), k, k + 1, Nops(n)))
    ensures Edited(root, t, r, t, p)
    ensures var d := Mean(t, At(root, p)); Mean(t, At(r, p)) == d.(props := DelP(d.props, name))
  {
    hide DelP, PropsOf, KidsOf, FindP, OkItem, At, Put, Nops, IsPath;
    var k := FindP(t, At(root, p).items, name);
    PutFrame(root, p, Replace(At(root, p), k, k + 1, Nops(n)));
    DelMeans(t, At(root, p), name, Nops(n));
    assert t[..|t|] == t;
  }

  method DelProp(f: Fdt, nodeoffset: nat, name: bytes, ghost p: seq<nat>) returns (err: int)
    requires f.Valid() && IsPath(f.root, p) && nodeoffset == NodeOff(f.root, p) && NoNul(name)
    modifies f, f.mem
    ensures f.Valid() && f.rsv == old(f.rsv) && f.Strings() == old(f.Strings())
    ensures var d := old(Mean(f.Strings(), At(f.root, p)));
      && err == (if FindD(d.props, name) < |d.props| then 0 else -FDT_ERR_NOTFOUND)
      && (err == 0 ==> NodeBecame(old(f.root), old(f.Strings()), f, p, d.(props := DelP(d.props, name))))
    ensures err != 0 ==> f.hdr == old(f.hdr) && f.mem[..] == old(f.mem[..]) && f.root == old(f.root)
  {
    hide Enc, FlatS, ItemPre, StringsOf, Put, At, Wf, FindP, FindD, DelP, Replaced, NodeBecame, Words, Tail, TagAlign, Occurs, SplicedOnly, KidsOf, PropsOf, BE32;
    ghost var root, t := f.root, f.Strings();
    WfLaid(f.hdr, f.mem[..], root, f.rsv);
    ghost var k := FindP(t, At(root, p).items, name);
    FindBoth(t, At(root, p).items, name);
    if f.ChkExtra() && RwProbe(f) != 0 { return RwProbe(f); }
    var offset, len := GetProperty(f, nodeoffset, name, p);
    if offset < 0 { return len; }
    PropBytes(f.hdr, f.mem[..], root, f.rsv, p, k);
    var prop := f.hdr.offStruct + offset;
    err := CutItems(f, prop, 12 + TagAlign(len), p, k, k + 1);
    ReplacedWf(f.hdr, f.mem[..], root, f.rsv, p, k, k + 1, Nops(0), f.root);
    PropCut(root, t, f.root, p, name, 0);
    Became(root, t, f, p, Mean(t, At(f.root, p)));
  }

  lemma ReplacedWf(h: Header, m: bytes, root: Item, l: seq<Rsv>, p: seq<nat>, k: nat, e: nat, ins: seq<Item>, r: Item)
    requires Replaced(h, m, root, l, p, k, e, ins, r)
    ensures IsPath(root, p) && k <= e <= |At(root, p).items| && Wf(h, m, r, l) && r == Put(root, p, Replace(At(root, p), k, e, ins))
  {
  }
}
