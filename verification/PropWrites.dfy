/**
  fdt_rw.c: fdt_setprop and fdt_appendprop, what they do to the tree, and the bytes they need.
 */
module PropWrites {
  import opened Bytes
  import opened Tree
  import opened Meaning
  import opened Blob
  import opened TreeWalk
  import opened Props
  import opened Edit
  import opened Splicing
  import opened Effects
  import opened Rw

  /** The edit of the node at path p of the tree r0 means d there and nothing anywhere else. */
  ghost predicate NodeBecame(r0: Item, t0: bytes, f: Fdt, p: seq<nat>, d: DT)
    reads f, f.mem
  {
    && f.Valid() && Edited(r0, t0, f.root, f.Strings(), p)
    && Mean(f.Strings(), At(f.root, p)) == d
    && DIsPath(Mean(t0, r0), DPath(r0, p)) && f.Meaning() == DPut(Mean(t0, r0), DPath(r0, p), d)
    && NodeOff(f.root, p) == NodeOff(r0, p)
  }

  lemma Became(r0: Item, t0: bytes, f: Fdt, p: seq<nat>, d: DT)
    requires f.Valid() && OkItem(t0, r0) && Edited(r0, t0, f.root, f.Strings(), p) && Mean(f.Strings(), At(f.root, p)) == d
    ensures NodeBecame(r0, t0, f, p, d)
  {
    EditedMeans(r0, t0, f.root, f.Strings(), p);
  }

  /** Strings nobody refers to do not change the meaning. */
  lemma UnchangedMeans(root: Item, l: seq<Rsv>, t: bytes, f: Fdt)
    requires Unchanged(root, l, t, f) && root.Node? && OkItem(t, root)
    ensures f.Meaning() == Mean(t, root)
  {
    assert f.Strings() == t + f.Strings()[|t|..];
    OkGrow(t, f.Strings()[|t|..], root);
  }

  lemma SetDone(root: Item, t: bytes, f: Fdt, p: seq<nat>, name: bytes, it: Item)
    requires f.Valid() && OkItem(t, root) && PropSet(root, t, f.root, f.Strings(), p, name, it)
    ensures it.Prop? && root.Node? && IsPath(root, p)
    ensures var d := Mean(t, At(root, p)); NodeBecame(root, t, f, p, d.(props := SetP(d.props, name, it.value)))
    ensures var d := Mean(t, At(root, p));
      ValueOf(t, At(root, p).items, name) == var i := FindD(d.props, name); if i < |d.props| then d.props[i].value else []
  {
    hide Wf, StringsOf, FindP;
    PropSetMeans(root, t, f.root, f.Strings(), p, name, it);
    Became(root, t, f, p, Mean(f.Strings(), At(f.root, p)));
  }

  method SetProp(f: Fdt, nodeoffset: nat, name: bytes, val: bytes, ghost p: seq<nat>) returns (err: int)
    requires f.Valid() && IsPath(f.root, p) && nodeoffset == NodeOff(f.root, p) && NoNul(name) && |val| < MAX_VALUE
    modifies f, f.mem
    ensures f.Valid() && f.rsv == old(f.rsv)
    ensures err == if old(DataSize(f.hdr) + SetCost(f.Strings(), At(f.root, p).items, name, |val|) > f.hdr.totalsize) then -FDT_ERR_NOSPACE else 0
    ensures err == 0 ==> var d := old(Mean(f.Strings(), At(f.root, p)));
      NodeBecame(old(f.root), old(f.Strings()), f, p, d.(props := SetP(d.props, name, val)))
    ensures err == 0 ==> GrewBy(old(f.hdr), f.hdr, old(SetCost(f.Strings(), At(f.root, p).items, name, |val|)))
    ensures err != 0 ==> Unchanged(old(f.root), old(f.rsv), old(f.Strings()), f) && f.Meaning() == old(f.Meaning())
  {
    hide StringsOf, Wf, Put, At, HoleAt, Replaced, FindP, SetCost, PropSet, Edited, Mean, SpotOf;
    ghost var root, t, l := f.root, f.Strings(), f.rsv;
    WfLaid(f.hdr, f.mem[..], root, l);
    var prop_data;
    ghost var it;
    err, prop_data, it := SetPropPlaceholder(f, nodeoffset, name, |val|, p);
    if err != 0 {
      UnchangedMeans(root, l, t, f);
      return;
    }
    if |val| > 0 {
      it := FillValue(f, prop_data, 0, val, p, name, it, root, t);
      WrittenAll(val);
    }
    SetDone(root, t, f, p, name, it);
  }

  lemma WrittenAll(val: bytes)
    ensures forall v: bytes {:trigger Written(v, 0, val)} :: |v| == |val| ==> Written(v, 0, val) == val
  {
  }

  /** memcpy into the value fdt_setprop_placeholder or fdt_add_property_ made room for. */
  method FillValue(f: Fdt, at: nat, idx: nat, val: bytes, ghost p: seq<nat>, ghost name: bytes, ghost was: Item, ghost root: Item, ghost t: bytes)
    returns (ghost it: Item)
    requires f.Valid() && PropSet(root, t, f.root, f.Strings(), p, name, was) && was.Prop? && idx + |val| <= |was.value| < MAX_VALUE
    requires var k := SpotOf(t, At(root, p).items, name).0;
      IsPath(f.root, p) && k < |At(f.root, p).items| && At(f.root, p).items[k] == was && at == HoleAt(f.hdr, f.root, p, k) + 12
    modifies f`root, f.mem
    ensures f.Valid() && f.Strings() == old(f.Strings()) && PropSet(root, t, f.root, f.Strings(), p, name, it)
    ensures it.Prop? && it.value == Written(was.value, idx, val)
  {
    hide StringsOf, Wf, Put, At, HoleAt, FindP, Written;
    ghost var k, r1 := SpotOf(t, At(root, p).items, name).0, f.root;
    it := StoreValue(f, at - 12, idx, val, p, k);
    PropSetTwice(root, t, r1, f.Strings(), f.root, p, name, was, it);
  }

  /** The first half of fdt_appendprop: a value long enough, starting with the old one; data is its index, idx the old length. */
  method MakeRoom(f: Fdt, nodeoffset: nat, name: bytes, n: nat, ghost p: seq<nat>) returns (err: int, data: nat, idx: nat, ghost it: Item)
    requires f.Valid() && IsPath(f.root, p) && nodeoffset == NodeOff(f.root, p) && NoNul(name)
    requires n + |ValueOf(f.Strings(), At(f.root, p).items, name)| < MAX_VALUE
    modifies f, f.mem
    ensures f.Valid() && f.rsv == old(f.rsv)
    ensures var newlen := n + old(|ValueOf(f.Strings(), At(f.root, p).items, name)|);
      err == if old(DataSize(f.hdr)) + old(SetCost(f.Strings(), At(f.root, p).items, name, newlen)) > old(f.hdr.totalsize) then -FDT_ERR_NOSPACE else 0
    ensures err != 0 ==> Unchanged(old(f.root), old(f.rsv), old(f.Strings()), f)
    ensures err == 0 ==> PropSet(old(f.root), old(f.Strings()), f.root, f.Strings(), p, name, it) && it.Prop?
    ensures err == 0 ==> var v := old(ValueOf(f.Strings(), At(f.root, p).items, name));
      idx == |v| && |it.value| == |v| + n && it.value[..|v|] == v
    ensures err == 0 ==> var k := old(SpotOf(f.Strings(), At(f.root, p).items, name).0);
      IsPath(f.root, p) && k < |At(f.root, p).items| && At(f.root, p).items[k] == it && data == HoleAt(f.hdr, f.root, p, k) + 12
  {
    hide StringsOf, Wf, Put, At, Replaced, FindP, StringCost, InTable, WithString, ItemPre, TagAlign, GrewBy, OkItem, IsPath, Terminated, Edited, StrAt, NoNul;
    ghost var root, t, l := f.root, f.Strings(), f.rsv;
    WfLaid(f.hdr, f.mem[..], root, l);
    data, idx, it := 0, 0, Item.Nop;
    if f.ChkExtra() && RwProbe(f) != 0 { return RwProbe(f), data, idx, it; }
    ghost var k := FindP(t, At(root, p).items, name);
    var offset, oldlen := GetProperty(f, nodeoffset, name, p);
    var prop;
    assert t[..|t|] == t;
    if offset >= 0 {
      prop, idx := f.hdr.offStruct + offset, oldlen;
      err, it := ResizeAt(f, prop, oldlen, n + oldlen, p, k);
      if err != 0 { return; }
      ReplacedIs(f.hdr, f.mem[..], root, l, p, k, k + 1, it, f.root);
    } else {
      err, prop, it := AddProperty(f, nodeoffset, name, n, p);
      if err != 0 { return; }
      StringKept(t, name);
      ReplacedIs(f.hdr, f.mem[..], root, l, p, 0, 0, it, f.root);
    }
    data := prop + 12;
  }

  method AppendProp(f: Fdt, nodeoffset: nat, name: bytes, val: bytes, ghost p: seq<nat>) returns (err: int)
    requires f.Valid() && IsPath(f.root, p) && nodeoffset == NodeOff(f.root, p) && NoNul(name)
    requires |val| + |ValueOf(f.Strings(), At(f.root, p).items, name)| < MAX_VALUE
    modifies f, f.mem
    ensures f.Valid() && f.rsv == old(f.rsv)
    ensures var newlen := |val| + old(|ValueOf(f.Strings(), At(f.root, p).items, name)|);
      err == if old(DataSize(f.hdr)) + old(SetCost(f.Strings(), At(f.root, p).items, name, newlen)) > old(f.hdr.totalsize) then -FDT_ERR_NOSPACE else 0
    ensures err == 0 ==> var d := old(Mean(f.Strings(), At(f.root, p)));
      NodeBecame(old(f.root), old(f.Strings()), f, p, d.(props := AppendP(d.props, name, val)))
    ensures err != 0 ==> Unchanged(old(f.root), old(f.rsv), old(f.Strings()), f) && f.Meaning() == old(f.Meaning())
  {
    hide StringsOf, Wf, Put, At, HoleAt, FindP, Edited, Mean, AppendP, SetP, Written, SpotOf, SetCost, ValueOf, PropSet;
    ghost var root, t, l := f.root, f.Strings(), f.rsv;
    WfLaid(f.hdr, f.mem[..], root, l);
    var data, idx;
    ghost var it;
    err, data, idx, it := MakeRoom(f, nodeoffset, name, |val|, p);
    if err != 0 {
      UnchangedMeans(root, l, t, f);
      return;
    }
    WrittenAfter(it.value, ValueOf(t, At(root, p).items, name), val);
    it := FillValue(f, data, idx, val, p, name, it, root, t);
    SetDone(root, t, f, p, name, it);
    AppendIsSet(Mean(t, At(root, p)).props, name, val);
  }

  lemma WrittenAfter(u: bytes, v: bytes, val: bytes)
    requires |u| == |v| + |val| && u[..|v|] == v
    ensures Written(u, |v|, val) == v + val
  {
  }

  /** Appending is setting the old value with val after it. */
  lemma AppendIsSet(ps: seq<DProp>, name: bytes, val: bytes)
    ensures var i := FindD(ps, name); SetP(ps, name, (if i < |ps| then ps[i].value else []) + val) == AppendP(ps, name, val)
  {
    assert [] + val == val;
  }
}
