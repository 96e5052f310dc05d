/**
  fdt_overlay.c: overlay_apply_node refines the tree merge.  p is the path of the target node in
  the base blob f, q the path of the overlay node in fdto.
 */
module Overlay {
  import opened Bytes
  import opened Tokens
  import opened Tree
  import opened Meaning
  import opened Blob
  import opened Scan
  import opened Walk
  import opened TreeWalk
  import opened Props
  import opened Edit
  import opened Effects
  import opened Rw
  import opened PropWrites
  import opened NodeEdits
  import opened AddNode
  import opened Merge

  // ------------------------------------------------------------------ iterating over a node

  /** data, name and len are what property it holds. */
  ghost predicate PropRead(f: Fdt, it: Item, data: int, name: bytes, len: int)
    reads f, f.mem
  {
    && it.Prop? && 0 <= data && len == |it.value| && data + len <= f.mem.Length && f.mem[data..data + len] == it.value
    && name == StrAt(f.Strings(), it.nameoff)
  }

  /** The index of the value of property k of the node at p. */
  ghost function ValueAt(f: Fdt, p: seq<nat>, k: nat): nat
    requires IsPath(f.root, p) && k <= |At(f.root, p).items|
    reads f
  {
    f.hdr.offStruct + ItemOff(f.root, p, k) + 12
  }

  lemma PropHere(f: Fdt, p: seq<nat>, k: nat)
    requires f.Valid() && IsPath(f.root, p) && k < |At(f.root, p).items| && At(f.root, p).items[k].Prop?
    ensures var it, off := At(f.root, p).items[k], ItemOff(f.root, p, k);
      var at := f.hdr.offStruct + off;
      && off % 4 == 0 && at + 12 + |it.value| <= f.mem.Length && |it.value| < MAX_VALUE
      && f.mem[at + 12..at + 12 + |it.value|] == it.value
      && Load(f.mem, at + 4) == |it.value| && Load(f.mem, at + 8) == it.nameoff
      && Terminated(f.Strings(), it.nameoff) && Laid(f.hdr, f.mem[..]) && Probed(f)
      && Scannable(f, Block(f.root)) && ItemPos(f.root, p, k) < |Block(f.root)|
      && Off(Block(f.root), ItemPos(f.root, p, k)) == off && Block(f.root)[ItemPos(f.root, p, k)].TProp?
  {
    hide Flat, FlatS, Pre, Post, Block, Enc, Tail, ItemPre, StringsOf, Wf, At, ItemPos, Off, StrAt, Terminated, Load, BE32, Words, Scannable;
    NodeFacts(f, p);
    PropAt(f, p, k);
    PropBytes(f.hdr, f.mem[..], f.root, f.rsv, p, k);
    WfLaid(f.hdr, f.mem[..], f.root, f.rsv);
  }

  /** fdt_get_property_by_offset_: index of the property and length of its value. */
  method GetPropertyByOffset(f: Fdt, offset: nat, ghost p: seq<nat>, ghost k: nat) returns (prop: int, len: int)
    requires f.Valid() && IsPath(f.root, p) && k < |At(f.root, p).items| && At(f.root, p).items[k].Prop?
    requires offset == ItemOff(f.root, p, k)
    ensures prop == ValueAt(f, p, k) - 12 && len == |At(f.root, p).items[k].value|
  {
    hide Flat, FlatS, Pre, Post, Block, Enc, Tail, ItemPre, StringsOf, Wf, At, ItemPos, Off, StrAt, Terminated, Load, Scannable, ItemOff, Laid, Probed, IsPath;
    PropHere(f, p, k);
    if f.ChkBasic() {
      if offset % 4 != 0 { return -1, -FDT_ERR_BADOFFSET; }
      var tag, next := NextTag(f, offset, Block(f.root), ItemPos(f.root, p, k));
      if tag != FDT_PROP || next < 0 { return -1, -FDT_ERR_BADOFFSET; }
    }
    prop := f.hdr.offStruct + offset;
    len := Load(f.mem, prop + 4);
  }

  /** fdt_getprop_by_offset: index of the value, the name, and the length. */
  method GetPropByOffset(f: Fdt, offset: nat, ghost p: seq<nat>, ghost k: nat) returns (data: int, name: bytes, len: int)
    requires f.Valid() && IsPath(f.root, p) && k < |At(f.root, p).items| && At(f.root, p).items[k].Prop?
    requires offset == ItemOff(f.root, p, k)
    ensures PropRead(f, At(f.root, p).items[k], data, name, len) && len < MAX_VALUE && data == ValueAt(f, p, k)
  {
    hide Flat, FlatS, Pre, Post, Block, Enc, Tail, ItemPre, StringsOf, Wf, At, ItemPos, Off, StrAt, Terminated, Load, Scannable, ItemOff, Laid, Probed, Occurs, IsPath;
    ghost var it := At(f.root, p).items[k];
    PropHere(f, p, k);
    name := [];
    var prop;
    prop, len := GetPropertyByOffset(f, offset, p, k);
    if prop < 0 { return -1, name, len; }
    var nameoff := Load(f.mem, prop + 8);
    var s, namelen := GetString(f, nameoff);
    if f.ChkExtra() && s.Null? { return -1, name, namelen; }
    CStringAt(f.mem[..], s.at, StrAt(f.Strings(), it.nameoff));
    name := f.mem[s.at..s.at + namelen];
    data := prop + 12;
  }

  lemma CStringAt(m: bytes, at: nat, s: bytes)
    requires Occurs(m, at, s + [0])
    ensures at + |s| <= |m| && m[at..at + |s|] == s
  {
    OccursCat(m, at, s, [0]);
  }

  /** The first child of a node, in its items. */
  method FirstKid(f: Fdt, nodeoffset: nat, ghost p: seq<nat>) returns (r: int)
    requires f.Valid() && IsPath(f.root, p) && nodeoffset == NodeOff(f.root, p)
    ensures var its := At(f.root, p).items; var m := KidIdx(its, Any);
      r == if m < |its| then ItemOff(f.root, p, m) else -FDT_ERR_NOTFOUND
  {
    hide Flat, FlatS, Pre, Post, Block, Enc, Tail, ItemPre, StringsOf, Wf, At, ItemPos;
    NodeFacts(f, p);
    NodeTokens(f.root, p);
    FindKidAt(f.root, p, Any);
    RestTokens(f.root, p, KidIdx(At(f.root, p).items, Any));
    r := FirstSubnode(f, nodeoffset, Block(f.root), NodePos(f.root, p));
  }

  method NextKid(f: Fdt, offset: nat, ghost p: seq<nat>, ghost k: nat) returns (r: int)
    requires f.Valid() && IsPath(f.root, p) && k < |At(f.root, p).items| && At(f.root, p).items[k].Node? && offset == ItemOff(f.root, p, k)
    ensures var its := At(f.root, p).items; var m := k + 1 + KidIdx(its[k + 1..], Any);
      r == if m < |its| then ItemOff(f.root, p, m) else -FDT_ERR_NOTFOUND
  {
    hide Flat, FlatS, Pre, Post, Block, Enc, Tail, ItemPre, StringsOf, Wf, At, ItemPos;
    NodeFacts(f, p);
    ItemTokens(f.root, p, k);
    NodeFacts(f, p + [k]);
    NextKidAt(f.root, p, k);
    RestTokens(f.root, p, k + 1 + KidIdx(At(f.root, p).items[k + 1..], Any));
    r := NextSubnode(f, offset, Block(f.root), ItemPos(f.root, p, k));
  }

  lemma {:induction false} NoProps(t: bytes, its: seq<Item>)
    requires forall i :: 0 <= i < |its| ==> !its[i].Prop?
    ensures PropsOf(t, its) == []
  {
    if its != [] {
      NoProps(t, its[1..]);
    }
  }

  /** The properties before the first one. */
  lemma PropsStart(t: bytes, its: seq<Item>)
    requires PropsFirst(its)
    ensures PropsOf(t, its[..NextPropIdx(its, 0)]) == []
  {
    NoProps(t, its[..NextPropIdx(its, 0)]);
  }

  /** From one property to the next. */
  lemma PropsStep(t: bytes, its: seq<Item>, k: nat)
    requires PropsFirst(its) && k < |its| && its[k].Prop?
    ensures PropsOf(t, its[..NextPropIdx(its, k + 1)]) == PropsOf(t, its[..k]) + [DProp(StrAt(t, its[k].nameoff), its[k].value)]
  {
    hide PropsOf;
    var m := NextPropIdx(its, k + 1);
    assert its[..m] == its[..k] + [its[k]] + its[k + 1..m];
    PropsOfConcat(t, its[..k] + [its[k]], its[k + 1..m]);
    PropsOfConcat(t, its[..k], [its[k]]);
    OneProp(t, its[k]);
    NoProps(t, its[k + 1..m]);
  }

  /** From one child to the next. */
  lemma KidsStep(t: bytes, its: seq<Item>, k: nat)
    requires k < |its| && its[k].Node?
    ensures var m := k + 1 + KidIdx(its[k + 1..], Any); KidsOf(t, its[..m]) == KidsOf(t, its[..k]) + [Mean(t, its[k])]
  {
    hide KidsOf, PropsOf;
    var m := k + 1 + KidIdx(its[k + 1..], Any);
    assert its[..m] == its[..k] + [its[k]] + its[k + 1..m];
    KidsOfConcat(t, its[..k] + [its[k]], its[k + 1..m]);
    KidsOfConcat(t, its[..k], [its[k]]);
    OneKid(t, its[k]);
    assert its[k + 1..m] == its[k + 1..][..m - k - 1];
    NoKids(t, its[k + 1..m]);
  }

  // ------------------------------------------------------------------ properties

  /** Since r0 only the node at p was edited; it means d now. */
  ghost predicate Merging(r0: Item, t0: bytes, f: Fdt, l: seq<Rsv>, p: seq<nat>, d: DT)
    reads f, f.mem
  {
    && f.Valid() && f.rsv == l && Edited(r0, t0, f.root, f.Strings(), p) && NodeOff(f.root, p) == NodeOff(r0, p)
    && Mean(f.Strings(), At(f.root, p)) == d
  }

  lemma MergingFacts(r0: Item, t0: bytes, f: Fdt, p: seq<nat>, d: DT)
    requires Merging(r0, t0, f, f.rsv, p, d)
    ensures f.Valid() && f.root.Node? && OkItem(f.Strings(), f.root)
    ensures IsPath(f.root, p) && IsPath(r0, p) && NodeOff(f.root, p) == NodeOff(r0, p) && Edited(r0, t0, f.root, f.Strings(), p)
    ensures Mean(f.Strings(), At(f.root, p)) == d
  {
  }

  lemma MergingStart(f: Fdt, p: seq<nat>)
    requires f.Valid() && IsPath(f.root, p)
    ensures Merging(f.root, f.Strings(), f, f.rsv, p, Mean(f.Strings(), At(f.root, p)))
  {
    EditedRefl(f.root, f.Strings(), p);
  }

  /** One more edit of the same node. */
  lemma MergingStep(r0: Item, t0: bytes, r1: Item, t1: bytes, f: Fdt, l: seq<Rsv>, p: seq<nat>, d: DT)
    requires Edited(r0, t0, r1, t1, p) && NodeOff(r1, p) == NodeOff(r0, p)
    requires NodeBecame(r1, t1, f, p, d) && f.rsv == l
    ensures Merging(r0, t0, f, l, p, d)
  {
    hide Wf, StringsOf;
    EditedTrans(r0, t0, r1, t1, f.root, f.Strings(), p);
  }

  /** The contents are at most n bytes longer, in a blob of the same total size. */
  predicate GrewWithin(h: Header, g: Header, n: nat) {
    g.totalsize == h.totalsize && DataSize(g) <= DataSize(h) + n
  }

  /** n more bytes of contents might not fit. */
  predicate Short(h: Header, n: nat) {
    DataSize(h) + n > h.totalsize
  }

  /** Two steps, of which the second may fail. */
  lemma NeedsAdd(h: Header, h1: Header, h2: Header, a: nat, b: nat)
    ensures GrewWithin(h, h1, a) && GrewWithin(h1, h2, b) ==> GrewWithin(h, h2, a + b)
    ensures GrewWithin(h, h1, a) && Short(h1, b) ==> Short(h, a + b)
    ensures Short(h, a) ==> Short(h, a + b)
  {
  }

  lemma SetCostBound(t: bytes, its: seq<Item>, name: bytes, val: bytes)
    ensures SetCost(t, its, name, |val|) <= PropNeed(DProp(name, val))
  {
  }

  /** The properties before property k, and it, need no more than all of them. */
  lemma PropsNeedAt(t: bytes, its: seq<Item>, k: nat)
    requires PropsFirst(its) && k < |its| && its[k].Prop?
    ensures var o, n := DProp(StrAt(t, its[k].nameoff), its[k].value), PropsNeed(PropsOf(t, its[..k]));
      n + PropNeed(o) <= PropsNeed(PropsOf(t, its)) && PropsNeed(PropsOf(t, its[..NextPropIdx(its, k + 1)])) == n + PropNeed(o)
  {
    hide PropsOf, StrAt, NextPropIdx, PropNeed;
    PropsStep(t, its, k);
    PropsSplit(t, its, k);
    OneProp(t, its[k]);
    var a, o, c := PropsOf(t, its[..k]), DProp(StrAt(t, its[k].nameoff), its[k].value), PropsOf(t, its[k + 1..]);
    PropsNeedCat(a, [o]);
    PropsNeedCat(a + [o], c);
    assert [o][1..] == [];
  }

  lemma KidsNeedAt(t: bytes, its: seq<Item>, k: nat)
    requires k < |its| && its[k].Node?
    ensures var o, n := Mean(t, its[k]), KidsNeed(KidsOf(t, its[..k]));
      n + KidNeed(o) <= KidsNeed(KidsOf(t, its)) && KidsNeed(KidsOf(t, its[..k + 1 + KidIdx(its[k + 1..], Any)])) == n + KidNeed(o)
  {
    hide KidsOf, Mean, KidIdx, KidNeed, Matches;
    KidsStep(t, its, k);
    KidsSplit(t, its, k);
    OneKid(t, its[k]);
    var a, o, c := KidsOf(t, its[..k]), Mean(t, its[k]), KidsOf(t, its[k + 1..]);
    KidsNeedCat(a, [o]);
    KidsNeedCat(a + [o], c);
    assert [o][1..] == [];
  }

  /** overlay_apply_node's step for one property. */
  method ApplyProp(f: Fdt, target: nat, name: bytes, val: bytes, ghost p: seq<nat>, ghost r0: Item, ghost t0: bytes, ghost d: DT) returns (ret: int)
    requires Merging(r0, t0, f, f.rsv, p, d) && target == NodeOff(r0, p) && NoNul(name) && |val| < MAX_VALUE
    modifies f, f.mem
    ensures f.rsv == old(f.rsv) && (ret == 0 || ret == -FDT_ERR_NOSPACE)
    ensures Merging(r0, t0, f, old(f.rsv), p, if ret == 0 then d.(props := SetP(d.props, name, val)) else d)
    ensures var n := PropNeed(DProp(name, val)); if ret == 0 then GrewWithin(old(f.hdr), f.hdr, n) else Short(old(f.hdr), n)
  {
    hide PropNeed, StringsOf, Wf, At, Put, PropsOf, KidsOf, SetCost, SetP, ItemOff, NodeOff, Edited, NodeBecame;
    ghost var r1, t1, l := f.root, f.Strings(), f.rsv;
    WfLaid(f.hdr, f.mem[..], r1, l);
    assert IsPath(r1, p) by { EditedPath(r0, t0, r1, t1, p); }
    SetCostBound(t1, At(r1, p).items, name, val);
    ret := SetProp(f, target, name, val, p);
    if ret == 0 {
      MergingStep(r0, t0, r1, t1, f, l, p, d.(props := SetP(d.props, name, val)));
    } else {
      UnchangedMerging(r0, t0, r1, t1, f, l, p, d);
    }
  }

  lemma EditedPath(r0: Item, t0: bytes, r1: Item, t1: bytes, p: seq<nat>)
    requires Edited(r0, t0, r1, t1, p)
    ensures IsPath(r1, p) && IsPath(r0, p) && r1.Node?
  {
  }

  /** A write that did not fit. */
  lemma UnchangedMerging(r0: Item, t0: bytes, r1: Item, t1: bytes, f: Fdt, l: seq<Rsv>, p: seq<nat>, d: DT)
    requires Edited(r0, t0, r1, t1, p) && NodeOff(r1, p) == NodeOff(r0, p) && OkItem(t1, r1) && Mean(t1, At(r1, p)) == d
    requires Unchanged(r1, l, t1, f)
    ensures Merging(r0, t0, f, l, p, d)
  {
    hide Wf, StringsOf;
    PutPut(r1, p, r1, r1);
    EditedTrans(r0, t0, r1, t1, f.root, f.Strings(), p);
    OkPut(t1, r1, p, r1);
    assert f.Strings() == t1 + f.Strings()[|t1|..];
    OkGrow(t1, f.Strings()[|t1|..], At(r1, p));
  }

  /** The same for property k of the overlay node at q. */
  method CopyProp(f: Fdt, target: nat, fdto: Fdt, property: nat, ghost p: seq<nat>, ghost q: seq<nat>, ghost k: nat, ghost r0: Item, ghost t0: bytes, ghost d: DT)
    returns (ret: int)
    requires Merging(r0, t0, f, f.rsv, p, d) && target == NodeOff(r0, p) && f != fdto && f.mem != fdto.mem
    requires fdto.Valid() && IsPath(fdto.root, q) && k < |At(fdto.root, q).items| && At(fdto.root, q).items[k].Prop? && property == ItemOff(fdto.root, q, k)
    modifies f, f.mem
    ensures f.rsv == old(f.rsv) && (ret == 0 || ret == -FDT_ERR_NOSPACE)
    ensures var it := At(fdto.root, q).items[k]; var o := DProp(StrAt(fdto.Strings(), it.nameoff), it.value);
      && Merging(r0, t0, f, old(f.rsv), p, if ret == 0 then d.(props := SetP(d.props, o.name, o.value)) else d)
      && if ret == 0 then GrewWithin(old(f.hdr), f.hdr, PropNeed(o)) else Short(old(f.hdr), PropNeed(o))
  {
    hide StringsOf, Wf, At, StrAt, SetP, ItemOff, NodeOff, Merging, OkItem, PropNeed, ValueAt, IsPath;
    var data, name, len := GetPropByOffset(fdto, property, q, k);
    ret := ApplyProp(f, target, name, fdto.mem[data..data + len], p, r0, t0, d);
  }

  /** The loop over the overlay node's properties. */
  method ApplyProps(f: Fdt, target: nat, fdto: Fdt, node: nat, ghost p: seq<nat>, ghost q: seq<nat>, ghost r0: Item, ghost t0: bytes, ghost d: DT)
    returns (ret: int)
    requires Merging(r0, t0, f, f.rsv, p, d) && target == NodeOff(r0, p)
    requires fdto.Valid() && f != fdto && f.mem != fdto.mem && IsPath(fdto.root, q) && node == NodeOff(fdto.root, q)
    modifies f, f.mem
    ensures f.rsv == old(f.rsv) && (ret == 0 || ret == -FDT_ERR_NOSPACE)
    ensures ret == 0 ==> Merging(r0, t0, f, old(f.rsv), p, d.(props := MergeProps(d.props, PropsOf(fdto.Strings(), At(fdto.root, q).items))))
    ensures ret != 0 ==> exists e :: Merging(r0, t0, f, old(f.rsv), p, e)
    ensures var n := PropsNeed(PropsOf(fdto.Strings(), At(fdto.root, q).items));
      if ret == 0 then GrewWithin(old(f.hdr), f.hdr, n) else Short(old(f.hdr), n)
  {
    hide StringsOf, Wf, At, PropsOf, MergeProps, StrAt, SetP, ItemOff, NodeOff, Merging, OkItem, PropsNeed, PropNeed, Matches, Terminated;
    ghost var its, to, l, h := At(fdto.root, q).items, fdto.Strings(), f.rsv, f.hdr;
    NodeFacts(fdto, q);
    PropsStart(to, its);
    ghost var k := NextPropIdx(its, 0);
    ghost var e := d;
    assert e == d.(props := MergeProps(d.props, [])) && PropsNeed([]) == 0 by { MergeNil(d.props); }
    var property := FirstPropertyOffset(fdto, node, q);
    while property >= 0
      invariant Merging(r0, t0, f, l, p, e) && f.rsv == l
      invariant k <= |its| && (k < |its| ==> its[k].Prop?) && property == if k < |its| then ItemOff(fdto.root, q, k) else -FDT_ERR_NOTFOUND
      invariant e == d.(props := MergeProps(d.props, PropsOf(to, its[..k])))
      invariant GrewWithin(h, f.hdr, PropsNeed(PropsOf(to, its[..k])))
      decreases |its| - k
    {
      PropsNeedAt(to, its, k);
      ret := CopyProp(f, target, fdto, property, p, q, k, r0, t0, e);
      if ret != 0 { return; }
      PropsStep(to, its, k);
      ghost var o := DProp(StrAt(to, its[k].nameoff), its[k].value);
      MergePropsSnoc(d.props, PropsOf(to, its[..k]), o);
      e := e.(props := SetP(e.props, o.name, o.value));
      property := NextPropertyOffset(fdto, property, q, k);
      k := NextPropIdx(its, k + 1);
    }
    assert its[..k] == its;
    ret := 0;
  }

  lemma MergeNil(ps: seq<DProp>)
    ensures MergeProps(ps, []) == ps && PropsNeed([]) == 0
  {
  }

  // ------------------------------------------------------------------ children

  lemma {:induction false} KidBoth(t: bytes, its: seq<Item>, name: bytes)
    ensures var k, c := KidIdx(its, Named(name)), FindKidD(KidsOf(t, its), name);
      c == Meaning.Nodes(its[..k]) && (k < |its| <==> c < |KidsOf(t, its)|)
    decreases its
  {
    hide NameEq, PropsOf, KidsOf, StrAt;
    if its == [] {
      assert its[..0] == [];
      NoKids(t, its);
    } else {
      KidsHead(t, its);
      if its[0].Node? && NameEq(its[0].name, name) {
        assert its[..0] == [];
      } else {
        var k := KidIdx(its[1..], Named(name));
        KidBoth(t, its[1..], name);
        assert its[..k + 1][0] == its[0] && its[..k + 1][1..] == its[1..][..k];
      }
    }
  }

  lemma KidsHead(t: bytes, its: seq<Item>)
    requires its != []
    ensures if its[0].Node? then KidsOf(t, its) != [] && KidsOf(t, its)[0].name == its[0].name && KidsOf(t, its)[1..] == KidsOf(t, its[1..])
            else KidsOf(t, its) == KidsOf(t, its[1..])
  {
    hide PropsOf;
  }

  /** An edit inside child c is an edit of the node that puts the child's new meaning in its place. */
  lemma MergingUp(r0: Item, t0: bytes, r1: Item, t1: bytes, f: Fdt, l: seq<Rsv>, p: seq<nat>, c: nat, y: DT)
    requires Edited(r0, t0, r1, t1, p) && NodeOff(r1, p) == NodeOff(r0, p) && OkItem(t1, r1)
    requires c < |At(r1, p).items| && At(r1, p).items[c].Node?
    requires Merging(r1, t1, f, l, p + [c], y)
    ensures var d, cd := Mean(t1, At(r1, p)), Meaning.Nodes(At(r1, p).items[..c]);
      cd < |d.kids| && d.kids[cd] == Mean(t1, At(r1, p).items[c]) && Merging(r0, t0, f, l, p, d.(kids := d.kids[cd := y]))
  {
    hide Wf, StringsOf, Flat, FlatS, Enc, Pre, Post, PropsOf, KidsOf;
    var n, x := At(r1, p), f.Strings()[|t1|..];
    KidPath(r1, p, c);
    EditedUp(r1, t1, f.root, f.Strings(), p, [c]);
    EditedTrans(r0, t0, r1, t1, f.root, f.Strings(), p);
    EditedMeans(r1, t1, f.root, f.Strings(), p);
    OkPut(t1, r1, p, r1);
    assert f.Strings() == t1 + x;
    OkGrow(t1, x, n);
    OkGrow(t1, x, n.items[c]);
    MeanPutStep(f.Strings(), n.items, c, At(f.root, p + [c]));
    PutOne(n, c, At(f.root, p + [c]));
  }

  lemma PutOne(n: Item, c: nat, m: Item)
    requires n.Node? && c < |n.items| && n.items[c].Node? && m.Node?
    ensures IsPath(n, [c]) && Put(n, [c], m) == n.(items := n.items[c := m])
  {
  }

  /** Child c of the node at p of r, at offset off, is the one name selects in d; e is d with that child made if need be. */
  ghost predicate KidTarget(r: Item, p: seq<nat>, c: nat, off: int, d: DT, e: DT, name: bytes) {
    && r.Node? && IsPath(r, p) && c < |At(r, p).items| && At(r, p).items[c].Node? && off == ItemOff(r, p, c)
    && var cd, i := Meaning.Nodes(At(r, p).items[..c]), FindKidD(d.kids, name);
       if i < |d.kids| then e == d && cd == i else e == AddKid(d, name) && cd == 0
  }

  /** Merging o into that child is merging it into d's children. */
  lemma TargetMerges(r: Item, p: seq<nat>, c: nat, off: int, d: DT, e: DT, o: DT)
    requires KidTarget(r, p, c, off, d, e, o.name)
    ensures var cd := Meaning.Nodes(At(r, p).items[..c]);
      cd < |e.kids| && e.(kids := e.kids[cd := MergeTree(e.kids[cd], o)]) == d.(kids := MergeKid(d.kids, o))
  {
    hide MergeTree, FindKidD, At, IsPath, ItemOff;
    if FindKidD(d.kids, o.name) == |d.kids| {
      assert e.kids[0 := MergeTree(e.kids[0], o)] == [MergeTree(e.kids[0], o)] + d.kids;
    }
  }

  lemma OldKid(r: Item, t: bytes, p: seq<nat>, name: bytes)
    requires r.Node? && IsPath(r, p)
    ensures var k, d := KidIdx(At(r, p).items, Named(name)), Mean(t, At(r, p));
      && (k < |At(r, p).items| <==> FindKidD(d.kids, name) < |d.kids|)
      && (k < |At(r, p).items| ==> KidTarget(r, p, k, ItemOff(r, p, k), d, d, name) && IsPath(r, p + [k]) && ItemOff(r, p, k) == NodeOff(r, p + [k]))
  {
    hide Flat, FlatS, Enc, Pre, Post, PropsOf, KidsOf;
    var k := KidIdx(At(r, p).items, Named(name));
    KidBoth(t, At(r, p).items, name);
    if k < |At(r, p).items| {
      KidPath(r, p, k);
    }
  }

  lemma MadeKid(r: Item, t: bytes, p: seq<nat>, name: bytes)
    requires r.Node? && IsPath(r, p) && FindKidD(Mean(t, At(r, p)).kids, name) == |Mean(t, At(r, p)).kids|
    ensures var k, d := KidIdx(At(r, p).items, Any), Mean(t, At(r, p));
      var r' := Put(r, p, Replace(At(r, p), k, k, [NewNode(name)]));
      KidTarget(r', p, k, ItemOff(r, p, k), d, AddKid(d, name), name)
  {
    hide Flat, FlatS, Enc, Pre, Post, PropsOf, KidsOf, NewNode;
    var k := KidIdx(At(r, p).items, Any);
    var n := Replace(At(r, p), k, k, [NewNode(name)]);
    AddedNode(r, p, name);
    PutFrame(r, p, n);
    assert n.items[..k] == At(r, p).items[..k];
    NoneBefore(At(r, p).items, k);
  }

  lemma NoneBefore(its: seq<Item>, c: nat)
    requires c == KidIdx(its, Any)
    ensures Meaning.Nodes(its[..c]) == 0
  {
    NodesKids([], its[..c]);
    NoKids([], its[..c]);
  }

  /** The child overlay_apply_node descends into: an existing one, or a new first child. */
  method TargetKid(f: Fdt, target: nat, name: bytes, ghost p: seq<nat>, ghost r0: Item, ghost t0: bytes, ghost d: DT)
    returns (nnode: int, ghost c: nat, ghost e: DT)
    requires Merging(r0, t0, f, f.rsv, p, d) && target == NodeOff(r0, p) && NoNul(name) && |name| < MAX_VALUE
    modifies f, f.mem
    ensures f.rsv == old(f.rsv) && Merging(r0, t0, f, f.rsv, p, e)
    ensures nnode < 0 ==> nnode == -FDT_ERR_NOSPACE
    ensures nnode >= 0 ==> KidTarget(f.root, p, c, nnode, d, e, name)
    ensures var n := 8 + TagAlign(|name| + 1); if nnode >= 0 then GrewWithin(old(f.hdr), f.hdr, n) else Short(old(f.hdr), n)
  {
    hide StringsOf, Wf, At, Put, PropsOf, KidsOf, ItemOff, NodeOff, Edited, NodeBecame, NewNode, InsertedOnly, KidTarget, Mean;
    ghost var r1, t1, l, h, m := f.root, f.Strings(), f.rsv, f.hdr, f.mem[..];
    EditedPath(r0, t0, r1, t1, p);
    c, e := KidIdx(At(r1, p).items, Named(name)), d;
    OldKid(r1, t1, p, name);
    nnode := AddSubnode(f, target, name, p);
    if nnode == -FDT_ERR_EXISTS {
      nnode := SubnodeOffset(f, target, name, p);
      if nnode == -FDT_ERR_NOTFOUND { return -FDT_ERR_INTERNAL, c, e; }
    } else if nnode >= 0 {
      c, e := KidIdx(At(r1, p).items, Any), AddKid(d, name);
      MadeKid(r1, t1, p, name);
      InsertedHdr(h, m, f.hdr, f.mem[..], h.offStruct + nnode, 8 + TagAlign(|name| + 1));
      MergingStep(r0, t0, r1, t1, f, l, p, e);
    }
  }

  /** fdt_get_name of the child at item k, as a string. */
  method KidName(f: Fdt, offset: nat, ghost q: seq<nat>, ghost k: nat) returns (name: bytes)
    requires f.Valid() && IsPath(f.root, q) && k < |At(f.root, q).items| && At(f.root, q).items[k].Node? && offset == ItemOff(f.root, q, k)
    ensures name == At(f.root, q).items[k].name && NoNul(name) && |name| < MAX_VALUE
  {
    hide StringsOf, Wf, At, ItemOff, NodeOff, Flat, FlatS, Block, Enc, IsPath, Pre, Off, Scannable, OkItem, Probed, Closed, Laid;
    KidPath(f.root, q, k);
    NodeFacts(f, q + [k]);
    NameFits(f, q + [k]);
    NodeTokens(f.root, q + [k]);
    var nameptr, namelen := GetName(f, offset, Block(f.root), NodePos(f.root, q + [k]));
    OccursCat(f.mem[..], nameptr.at, At(f.root, q + [k]).name, [0]);
    return f.mem[nameptr.at..nameptr.at + namelen];
  }

  /** overlay_apply_node's step for the child at item k of the overlay node. */
  method ApplyKid(f: Fdt, target: nat, fdto: Fdt, subnode: nat, ghost p: seq<nat>, ghost q: seq<nat>, ghost k: nat,
                  ghost r0: Item, ghost t0: bytes, ghost d: DT) returns (ret: int)
    requires Merging(r0, t0, f, f.rsv, p, d) && target == NodeOff(r0, p)
    requires fdto.Valid() && f != fdto && f.mem != fdto.mem && IsPath(fdto.root, q)
    requires k < |At(fdto.root, q).items| && At(fdto.root, q).items[k].Node? && subnode == ItemOff(fdto.root, q, k)
    modifies f, f.mem
    ensures f.rsv == old(f.rsv) && (ret == 0 || ret == -FDT_ERR_NOSPACE)
    ensures ret == 0 ==> Merging(r0, t0, f, f.rsv, p, d.(kids := MergeKid(d.kids, Mean(fdto.Strings(), At(fdto.root, q).items[k]))))
    ensures ret != 0 ==> exists e :: Merging(r0, t0, f, f.rsv, p, e)
    ensures var n := KidNeed(Mean(fdto.Strings(), At(fdto.root, q).items[k])); if ret == 0 then GrewWithin(old(f.hdr), f.hdr, n) else Short(old(f.hdr), n)
    decreases At(fdto.root, q), 0
  {
    hide TreeNeed, StringsOf, Wf, Put, PropsOf, KidsOf, ItemOff, NodeOff, Edited, KidTarget, MergeTree, MergeKid, Flat, FlatS, Block, Enc, IsPath, Pre, Off, Scannable, OkItem, At, GrewWithin, Short, TagAlign;
    ghost var l, h := f.rsv, f.hdr;
    KidPath(fdto.root, q, k);
    var name := KidName(fdto, subnode, q, k);
    var nnode;
    ghost var c, e;
    nnode, c, e := TargetKid(f, target, name, p, r0, t0, d);
    if nnode < 0 {
      NeedsAdd(h, f.hdr, f.hdr, 8 + TagAlign(|name| + 1), TreeNeed(Mean(fdto.Strings(), At(fdto.root, q + [k]))));
      return nnode;
    }
    ghost var r1, t1 := f.root, f.Strings();
    KidStart(f, r0, t0, p, c, nnode, d, e, name);
    ghost var h1 := f.hdr;
    ret := ApplyNode(f, nnode, fdto, subnode, p + [c], q + [k], r1, t1, Mean(t1, At(r1, p + [c])));
    ghost var y :| Merging(r1, t1, f, l, p + [c], y) && (ret == 0 ==> y == MergeTree(Mean(t1, At(r1, p + [c])), Mean(fdto.Strings(), At(fdto.root, q + [k]))));
    MergingUp(r0, t0, r1, t1, f, l, p, c, y);
    TargetMerges(r1, p, c, nnode, d, e, Mean(fdto.Strings(), At(fdto.root, q + [k])));
    NeedsAdd(h, h1, f.hdr, 8 + TagAlign(|name| + 1), TreeNeed(Mean(fdto.Strings(), At(fdto.root, q + [k]))));
  }

  /** Node names fit an int. */
  lemma NameFits(f: Fdt, p: seq<nat>)
    requires f.Valid() && IsPath(f.root, p)
    ensures |At(f.root, p).name| < MAX_VALUE
  {
    hide Flat, FlatS, Block, Enc, Off, Pre, Post;
    NodeFacts(f, p);
    NodeTokens(f.root, p);
    TokenAt(f, Block(f.root), NodePos(f.root, p));
  }

  /** Everything the recursive call needs, and what is known of the child it is for. */
  lemma KidStart(f: Fdt, r0: Item, t0: bytes, p: seq<nat>, c: nat, off: int, d: DT, e: DT, name: bytes)
    requires Merging(r0, t0, f, f.rsv, p, e) && KidTarget(f.root, p, c, off, d, e, name)
    ensures var r, t := f.root, f.Strings();
      && IsPath(r, p) && c < |At(r, p).items| && At(r, p).items[c].Node? && OkItem(t, r)
      && IsPath(r, p + [c]) && At(r, p + [c]) == At(r, p).items[c] && off == NodeOff(r, p + [c])
      && Merging(r, t, f, f.rsv, p + [c], Mean(t, At(r, p + [c])))
  {
    hide Flat, FlatS, Block, Enc, Off, Pre, Post, PropsOf, KidsOf;
    KidPath(f.root, p, c);
    MergingStart(f, p + [c]);
  }

  /** The loop over the overlay node's children. */
  method ApplyKids(f: Fdt, target: nat, fdto: Fdt, node: nat, ghost p: seq<nat>, ghost q: seq<nat>, ghost r0: Item, ghost t0: bytes, ghost d: DT)
    returns (ret: int)
    requires Merging(r0, t0, f, f.rsv, p, d) && target == NodeOff(r0, p)
    requires fdto.Valid() && f != fdto && f.mem != fdto.mem && IsPath(fdto.root, q) && node == NodeOff(fdto.root, q)
    modifies f, f.mem
    ensures f.rsv == old(f.rsv) && (ret == 0 || ret == -FDT_ERR_NOSPACE)
    ensures ret == 0 ==> Merging(r0, t0, f, f.rsv, p, d.(kids := MergeKids(d.kids, KidsOf(fdto.Strings(), At(fdto.root, q).items))))
    ensures ret != 0 ==> exists e :: Merging(r0, t0, f, f.rsv, p, e)
    ensures var n := KidsNeed(KidsOf(fdto.Strings(), At(fdto.root, q).items));
      if ret == 0 then GrewWithin(old(f.hdr), f.hdr, n) else Short(old(f.hdr), n)
    decreases At(fdto.root, q), 1
  {
    hide StringsOf, Wf, PropsOf, KidsOf, ItemOff, NodeOff, Edited, MergeKid, MergeKids, Merging, OkItem, KidsNeed, KidNeed, At, IsPath, Mean, KidIdx, Matches;
    ghost var its, to, l, h := At(fdto.root, q).items, fdto.Strings(), f.rsv, f.hdr;
    ghost var e := d;
    ghost var k := KidIdx(its, Any);
    KidsStart(to, its);
    assert e == d.(kids := MergeKids(d.kids, [])) && KidsNeed([]) == 0 by { MergeKidsNil(d.kids); }
    var subnode := FirstKid(fdto, node, q);
    while subnode >= 0
      invariant Merging(r0, t0, f, l, p, e) && f.rsv == l
      invariant k <= |its| && (k < |its| ==> its[k].Node?) && subnode == if k < |its| then ItemOff(fdto.root, q, k) else -FDT_ERR_NOTFOUND
      invariant e == d.(kids := MergeKids(d.kids, KidsOf(to, its[..k])))
      invariant GrewWithin(h, f.hdr, KidsNeed(KidsOf(to, its[..k])))
      decreases |its| - k
    {
      KidsNeedAt(to, its, k);
      ret := ApplyKid(f, target, fdto, subnode, p, q, k, r0, t0, e);
      if ret != 0 { return; }
      KidsStep(to, its, k);
      MergeKidsSnoc(d.kids, KidsOf(to, its[..k]), Mean(to, its[k]));
      e := e.(kids := MergeKid(e.kids, Mean(to, its[k])));
      subnode := NextKid(fdto, subnode, q, k);
      k := k + 1 + KidIdx(its[k + 1..], Any);
    }
    assert its[..k] == its;
    ret := 0;
  }

  /**
    overlay_apply_node: the target node gains the overlay node's properties and children, merged
    recursively; the rest of the base tree and the target's own offset are as before.  It can fail
    only if the base has less room than the overlay node needs.
   */
  method ApplyNode(f: Fdt, target: nat, fdto: Fdt, node: nat, ghost p: seq<nat>, ghost q: seq<nat>, ghost r0: Item, ghost t0: bytes, ghost d: DT)
    returns (ret: int)
    requires Merging(r0, t0, f, f.rsv, p, d) && target == NodeOff(r0, p)
    requires fdto.Valid() && f != fdto && f.mem != fdto.mem && IsPath(fdto.root, q) && node == NodeOff(fdto.root, q)
    modifies f, f.mem
    ensures f.rsv == old(f.rsv) && (ret == 0 || ret == -FDT_ERR_NOSPACE)
    ensures ret == 0 ==> Merging(r0, t0, f, f.rsv, p, MergeTree(d, Mean(fdto.Strings(), At(fdto.root, q))))
    ensures ret != 0 ==> exists e :: Merging(r0, t0, f, f.rsv, p, e)
    ensures var n := TreeNeed(Mean(fdto.Strings(), At(fdto.root, q))); if ret == 0 then GrewWithin(old(f.hdr), f.hdr, n) else Short(old(f.hdr), n)
    decreases At(fdto.root, q), 2
  {
    hide StringsOf, Wf, PropsOf, KidsOf, NodeOff, MergeKids, MergeProps, Merging, OkItem, PropsNeed, KidsNeed;
    ret := ApplyProps(f, target, fdto, node, p, q, r0, t0, d);
    if ret != 0 { return; }
    ghost var props := PropsOf(fdto.Strings(), At(fdto.root, q).items);
    ret := ApplyKids(f, target, fdto, node, p, q, r0, t0, d.(props := MergeProps(d.props, props)));
  }

  lemma KidsStart(t: bytes, its: seq<Item>)
    ensures KidsOf(t, its[..KidIdx(its, Any)]) == []
  {
    NoKids(t, its[..KidIdx(its, Any)]);
  }

  lemma MergeKidsNil(kids: seq<DT>)
    ensures MergeKids(kids, []) == kids && KidsNeed([]) == 0
  {
  }
}
