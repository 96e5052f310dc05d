/**
  fdt_wip.c: fdt_setprop_inplace and fdt_setprop_inplace_namelen_partial.  Values change, lengths
  do not, so every node and property keeps its offset.
 */
module InPlace {
  import opened Bytes
  import opened Tokens
  import opened Tree
  import opened Meaning
  import opened Blob
  import opened Scan
  import opened Walk
  import opened TreeWalk
  import opened Props
  import opened Edit
  import opened Effects
  import opened Rw
  import opened PropWrites
  import opened Merge
  import opened Overlay
  import opened OverlayTarget

  // ------------------------------------------------------------------ trees of the same shape

  /** The same but for the contents of property values. */
  predicate SameShape(a: Item, b: Item)
    decreases a
  {
    match a
    case Nop => b.Nop?
    case Prop(o, v, p) => b.Prop? && b.nameoff == o && |b.value| == |v| && |b.ppad| == |p|
    case Node(n, p, its) => b.Node? && b.name == n && b.npad == p && |b.items| == |its| && forall k :: 0 <= k < |its| ==> SameShape(its[k], b.items[k])
  }

  predicate SameShapes(a: seq<Item>, b: seq<Item>) {
    |a| == |b| && forall k :: 0 <= k < |a| ==> SameShape(a[k], b[k])
  }

  lemma {:induction false} ShapeRefl(a: Item)
    ensures SameShape(a, a)
    decreases a
  {
    if a.Node? {
      forall k | 0 <= k < |a.items| ensures SameShape(a.items[k], a.items[k]) {
        ShapeRefl(a.items[k]);
      }
    }
  }

  lemma {:induction false} ShapeTrans(a: Item, b: Item, c: Item)
    requires SameShape(a, b) && SameShape(b, c)
    ensures SameShape(a, c)
    decreases a
  {
    if a.Node? {
      forall k | 0 <= k < |a.items| ensures SameShape(a.items[k], c.items[k]) {
        ShapeTrans(a.items[k], b.items[k], c.items[k]);
      }
    }
  }

  /** Such trees have as many tokens and as many bytes. */
  lemma {:induction false} ShapeFlat(a: Item, b: Item)
    requires SameShape(a, b)
    ensures |Flat(a)| == |Flat(b)| && |Enc(Flat(a))| == |Enc(Flat(b))|
    decreases a, 1
  {
    hide Enc;
    match a {
      case Nop =>
      case Prop(o, v, p) =>
        EncOne(TProp(o, v, p));
        EncOne(TProp(o, b.value, b.ppad));
      case Node(n, p, its) =>
        ShapeFlatS(its, b.items);
        EncConcat([TBegin(n, p)] + FlatS(its), [TEnd]);
        EncConcat([TBegin(n, p)], FlatS(its));
        EncConcat([TBegin(n, p)] + FlatS(b.items), [TEnd]);
        EncConcat([TBegin(n, p)], FlatS(b.items));
    }
  }

  lemma {:induction false} ShapeFlatS(a: seq<Item>, b: seq<Item>)
    requires SameShapes(a, b)
    ensures |FlatS(a)| == |FlatS(b)| && |Enc(FlatS(a))| == |Enc(FlatS(b))|
    decreases a, 0
  {
    hide Enc, Flat;
    if a != [] {
      ShapeFlat(a[0], b[0]);
      ShapeFlatS(a[1..], b[1..]);
      EncConcat(Flat(a[0]), FlatS(a[1..]));
      EncConcat(Flat(b[0]), FlatS(b[1..]));
    }
  }

  /** A node replaced by one of its shape. */
  lemma {:induction false} ShapePut(r: Item, p: seq<nat>, n: Item)
    requires IsPath(r, p) && SameShape(At(r, p), n)
    ensures SameShape(r, Put(r, p, n))
    decreases p
  {
    if p != [] {
      ShapePut(r.items[p[0]], p[1..], n);
      forall k | 0 <= k < |r.items| ensures SameShape(r.items[k], Put(r, p, n).items[k]) {
        ShapeRefl(r.items[k]);
      }
    }
  }

  /** Every node stays where it is. */
  lemma {:induction false} ShapeAt(a: Item, b: Item, p: seq<nat>)
    requires SameShape(a, b) && IsPath(a, p)
    ensures IsPath(b, p) && SameShape(At(a, p), At(b, p)) && NodeOff(b, p) == NodeOff(a, p)
    decreases p
  {
    hide Enc, FlatS;
    if p != [] {
      var k := p[0];
      ShapeAt(a.items[k], b.items[k], p[1..]);
      ShapeFlatS(a.items[..k], b.items[..k]);
      EncConcat([TBegin(a.name, a.npad)] + FlatS(a.items[..k]), Pre(a.items[k], p[1..]));
      EncConcat([TBegin(a.name, a.npad)], FlatS(a.items[..k]));
      EncConcat([TBegin(a.name, a.npad)] + FlatS(b.items[..k]), Pre(b.items[k], p[1..]));
      EncConcat([TBegin(a.name, a.npad)], FlatS(b.items[..k]));
    }
  }

  /** And so does every item of every node. */
  lemma ShapeItem(a: Item, b: Item, p: seq<nat>, k: nat)
    requires SameShape(a, b) && IsPath(a, p) && k <= |At(a, p).items|
    ensures IsPath(b, p) && k <= |At(b, p).items| && ItemOff(b, p, k) == ItemOff(a, p, k)
  {
    hide Enc, FlatS, Pre;
    ShapeAt(a, b, p);
    var m, n := At(a, p), At(b, p);
    var u, x, y := [TBegin(m.name, m.npad)], FlatS(m.items[..k]), FlatS(n.items[..k]);
    ShapeFlatS(m.items[..k], n.items[..k]);
    EncConcat(Pre(a, p), u + x);
    EncConcat(u, x);
    EncConcat(Pre(b, p), u + y);
    EncConcat(u, y);
  }

  lemma {:induction false} ShapeKid(a: seq<Item>, b: seq<Item>, w: Want)
    requires SameShapes(a, b)
    ensures KidIdx(a, w) == KidIdx(b, w)
  {
    hide Matches;
    if a != [] {
      ShapeKid(a[1..], b[1..], w);
    }
  }

  // ------------------------------------------------------------------ fdt_setprop_inplace

  /** Properties of the same name, whose padding the length determines. */
  lemma PropShape(a: Item, b: Item)
    requires a.Prop? && b.Prop? && b.nameoff == a.nameoff && |b.value| == |a.value| && |a.ppad| == |b.ppad|
    ensures SameShape(a, b)
  {
  }

  lemma SamePad(t: bytes, a: Item, b: Item)
    requires OkItem(t, a) && OkItem(t, b) && a.Prop? && b.Prop? && |b.value| == |a.value|
    ensures |a.ppad| == |b.ppad|
  {
  }

  lemma NodeShape(a: Item, b: Item)
    requires a.Node? && b.Node? && b.name == a.name && b.npad == a.npad && |b.items| == |a.items|
    requires forall i :: 0 <= i < |a.items| ==> SameShape(a.items[i], b.items[i])
    ensures SameShape(a, b)
  {
  }

  /** Item it in place of property k, of the same name and length. */
  lemma ShapeSwap(root: Item, t: bytes, p: seq<nat>, k: nat, it: Item)
    requires root.Node? && IsPath(root, p) && k < |At(root, p).items| && At(root, p).items[k].Prop? && it.Prop?
    requires it.nameoff == At(root, p).items[k].nameoff && |it.value| == |At(root, p).items[k].value|
    requires OkItem(t, root) && OkItem(t, Put(root, p, Replace(At(root, p), k, k + 1, [it])))
    ensures SameShape(root, Put(root, p, Replace(At(root, p), k, k + 1, [it])))
  {
    hide Put, PropsFirst, Terminated, SameShape, At, IsPath;
    var n := At(root, p);
    var m := Replace(n, k, k + 1, [it]);
    PutFrame(root, p, m);
    OkPut(t, root, p, root);
    OkPut(t, Put(root, p, m), p, root);
    assert m.items[k] == it;
    assert OkItem(t, n.items[k]) && OkItem(t, m.items[k]);
    forall i | 0 <= i < |n.items| ensures SameShape(n.items[i], m.items[i]) {
      if i == k {
        SamePad(t, n.items[k], it);
        PropShape(n.items[k], it);
      } else {
        assert m.items[i] == n.items[i];
        ShapeRefl(n.items[i]);
      }
    }
    NodeShape(n, m);
    ShapePut(root, p, m);
  }

  /** The nodes among items, and their number, are the same. */
  ghost predicate SameNodes(a: seq<Item>, b: seq<Item>) {
    |a| == |b| && forall k :: 0 <= k < |a| && (a[k].Node? || b[k].Node?) ==> a[k] == b[k]
  }

  /** Node p of a tree with property k of it replaced. */
  lemma SwapHere(root: Item, t: bytes, r: Item, p: seq<nat>, k: nat, it: Item)
    requires root.Node? && OkItem(t, root) && OkItem(t, r) && IsPath(root, p) && it.Prop?
    requires k < |At(root, p).items| && At(root, p).items[k].Prop?
    requires it.nameoff == At(root, p).items[k].nameoff && |it.value| == |At(root, p).items[k].value|
    requires r == Put(root, p, Replace(At(root, p), k, k + 1, [it]))
    ensures SameShape(root, r) && IsPath(r, p) && r == Put(root, p, At(r, p))
    ensures SameNodes(At(root, p).items, At(r, p).items)
  {
    hide SameShape, OkItem, Put, At, IsPath;
    ShapeSwap(root, t, p, k, it);
    PutFrame(root, p, Replace(At(root, p), k, k + 1, [it]));
  }

  /** What a store into the value of property name does to the tree. */
  lemma SwappedIn(root: Item, t: bytes, f: Fdt, p: seq<nat>, name: bytes, it: Item)
    requires f.Valid() && f.Strings() == t && OkItem(t, root) && root.Node? && IsPath(root, p) && it.Prop?
    requires FindP(t, At(root, p).items, name) < |At(root, p).items|
    requires var k := FindP(t, At(root, p).items, name);
      && it.nameoff == At(root, p).items[k].nameoff && |it.value| == |At(root, p).items[k].value|
      && f.root == Put(root, p, Replace(At(root, p), k, k + 1, [it]))
    ensures SameShape(root, f.root) && IsPath(f.root, p) && f.root == Put(root, p, At(f.root, p))
    ensures SameNodes(At(root, p).items, At(f.root, p).items)
    ensures var d := Mean(t, At(root, p)); NodeBecame(root, t, f, p, d.(props := SetP(d.props, name, it.value)))
  {
    hide StringsOf, Wf, FindP, PropsOf, KidsOf, SameShape, OkItem, StrAt, Put, At, IsPath, NodeBecame, PropSet, Mean, SameNodes, Replace, SetP;
    var k := FindP(t, At(root, p).items, name);
    WfLaid(f.hdr, f.mem[..], f.root, f.rsv);
    SwapHere(root, t, f.root, p, k, it);
    PropSetHere(root, t, f.root, p, name, it);
    SetDone(root, t, f, p, name, it);
  }

  lemma PropSetHere(root: Item, t: bytes, r: Item, p: seq<nat>, name: bytes, it: Item)
    requires root.Node? && IsPath(root, p) && it.Prop? && FindP(t, At(root, p).items, name) < |At(root, p).items|
    requires var k := FindP(t, At(root, p).items, name);
      it.nameoff == At(root, p).items[k].nameoff && r == Put(root, p, Replace(At(root, p), k, k + 1, [it]))
    ensures PropSet(root, t, r, t, p, name, it)
  {
    hide FindP, StrAt, Put, At, IsPath;
    assert t[..|t|] == t;
  }

  // ------------------------------------------------------------------ the room test

  /** The room test of fdt_setprop_inplace_namelen_partial: idx has 32 unsigned bits, and so has the sum. */
  predicate TooLong(proplen: nat, len: nat, idx: nat) {
    proplen < (len + idx) % TWO32
  }

  /** It is right for all values exactly if the sum does not wrap. */
  lemma TooLongExact(len: nat, idx: nat)
    requires len < 0x8000_0000 && idx < TWO32
    ensures (forall proplen: nat :: proplen < 0x8000_0000 ==> (TooLong(proplen, len, idx) <==> proplen < len + idx)) <==> len + idx < TWO32
  {
    if len + idx >= TWO32 {
      assert (len + idx) % TWO32 == len + idx - TWO32;
      assert !TooLong(len + idx - TWO32, len, idx);
    }
  }

  /** A word at offset 0xffff_fffc passes for a value of any length. */
  lemma TooLongMissed(proplen: nat)
    requires proplen < 0x8000_0000
    ensures proplen < 4 + 0xffff_fffc && !TooLong(proplen, 4, 0xffff_fffc)
  {
  }

  /** fdt_setprop_inplace_namelen_partial: part of a value, where it is. */
  method SetPropInPlacePartial(f: Fdt, nodeoffset: nat, name: bytes, idx: nat, val: bytes, ghost p: seq<nat>) returns (err: int)
    requires f.Valid() && IsPath(f.root, p) && nodeoffset == NodeOff(f.root, p) && NoNul(name) && idx < TWO32 && |val| < 0x8000_0000
    modifies f`root, f.mem
    ensures f.Valid() && f.Strings() == old(f.Strings()) && SameShape(old(f.root), f.root)
    ensures var d := old(Mean(f.Strings(), At(f.root, p))); match Lookup(d.props, name)
      case None => err == -FDT_ERR_NOTFOUND
      case Some(v) =>
        if TooLong(|v|, |val|, idx) then err == -FDT_ERR_NOSPACE
        else if |v| < |val| + idx then err == -STRAY
        else err == 0 && NodeBecame(old(f.root), old(f.Strings()), f, p, d.(props := SetP(d.props, name, Written(v, idx, val))))
    ensures err != 0 ==> f.root == old(f.root) && f.mem[..] == old(f.mem[..])
    ensures IsPath(f.root, p) && SameNodes(old(At(f.root, p)).items, At(f.root, p).items) && f.root == Put(old(f.root), p, At(f.root, p))
  {
    hide StringsOf, Wf, Put, At, HoleAt, Replaced, FindP, Written, PropsOf, KidsOf, IsPath, NodeBecame, SameShape, ItemOff;
    ghost var root, t, k := f.root, f.Strings(), FindP(f.Strings(), At(f.root, p).items, name);
    WfLaid(f.hdr, f.mem[..], root, f.rsv);
    ShapeRefl(root);
    PutPut(root, p, root, root);
    PropValue(t, At(root, p).items, name);
    var offset, proplen := GetProperty(f, nodeoffset, name, p);
    if offset < 0 { return proplen; }
    if TooLong(proplen, |val|, idx) { return -FDT_ERR_NOSPACE; }
    if proplen < |val| + idx { return -STRAY; }
    ValuePlace(f, p, k);
    ghost var it := StoreValue(f, f.hdr.offStruct + offset, idx, val, p, k);
    ReplacedIs(f.hdr, f.mem[..], root, f.rsv, p, k, k + 1, it, f.root);
    SwappedIn(root, t, f, p, name, it);
    return 0;
  }

  lemma ValuePlace(f: Fdt, p: seq<nat>, k: nat)
    requires f.Valid() && IsPath(f.root, p) && k < |At(f.root, p).items| && At(f.root, p).items[k].Prop?
    ensures |At(f.root, p).items[k].value| < MAX_VALUE
    ensures f.hdr.offStruct + ItemOff(f.root, p, k) == HoleAt(f.hdr, f.root, p, k)
  {
    hide Flat, FlatS, Pre, Post, Block, Enc, StringsOf, Wf, At, ItemPos, Off, StrAt, Terminated, Load, Scannable;
    PropHere(f, p, k);
  }

  /** fdt_setprop_inplace: the new value must have the old length. */
  method SetPropInPlace(f: Fdt, nodeoffset: nat, name: bytes, val: bytes, ghost p: seq<nat>) returns (err: int)
    requires f.Valid() && IsPath(f.root, p) && nodeoffset == NodeOff(f.root, p) && NoNul(name) && |val| < 0x8000_0000
    modifies f`root, f.mem
    ensures f.Valid() && f.Strings() == old(f.Strings()) && SameShape(old(f.root), f.root)
    ensures var d := old(Mean(f.Strings(), At(f.root, p))); match Lookup(d.props, name)
      case None => err == -FDT_ERR_NOTFOUND
      case Some(v) =>
        if |v| != |val| then err == -FDT_ERR_NOSPACE
        else err == 0 && NodeBecame(old(f.root), old(f.Strings()), f, p, d.(props := SetP(d.props, name, val)))
    ensures err != 0 ==> f.root == old(f.root) && f.mem[..] == old(f.mem[..])
    ensures IsPath(f.root, p) && SameNodes(old(At(f.root, p)).items, At(f.root, p).items) && f.root == Put(old(f.root), p, At(f.root, p))
  {
    hide StringsOf, Wf, Put, At, IsPath, NodeBecame, Edited;
    WfLaid(f.hdr, f.mem[..], f.root, f.rsv);
    ShapeRefl(f.root);
    PutPut(f.root, p, f.root, f.root);
    var data, proplen := GetProp(f, nodeoffset, name, p);
    if proplen < 0 { return proplen; }
    if proplen != |val| { return -FDT_ERR_NOSPACE; }
    WrittenAll(val);
    err := SetPropInPlacePartial(f, nodeoffset, name, 0, val, p);
  }
}
