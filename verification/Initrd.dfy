/**
  fdt_support.c: fdt_initrd.  What it does to the tree is the merge of a small overlay.
 */
module Initrd {
  import opened Wrappers
  import opened Bytes
  import opened Tokens
  import opened Tree
  import opened Meaning
  import opened Blob
  import opened Walk
  import opened TreeWalk
  import opened Effects
  import opened PropWrites
  import opened AddNode
  import opened Merge
  import opened Overlay
  import opened OverlayTarget
  import opened Reserve

  const FDT_ERR_BADNCELLS: int := 14
  const FDT_MAX_NCELLS: nat := 4

  /** "chosen", "linux,initrd-start", "linux,initrd-end", "#address-cells" */
  function ChosenName(): (r: bytes)
    ensures NoNul(r)
  {
    [99, 104, 111, 115, 101, 110]
  }

  function StartName(): (r: bytes)
    ensures NoNul(r)
  {
    [108, 105, 110, 117, 120, 44, 105, 110, 105, 116, 114, 100, 45, 115, 116, 97, 114, 116]
  }

  function EndName(): (r: bytes)
    ensures NoNul(r)
  {
    [108, 105, 110, 117, 120, 44, 105, 110, 105, 116, 114, 100, 45, 101, 110, 100]
  }

  function CellsName(): (r: bytes)
    ensures NoNul(r)
  {
    [35, 97, 100, 100, 114, 101, 115, 115, 45, 99, 101, 108, 108, 115]
  }

  /** fdt_address_cells of a node with these properties. */
  function AddressCells(ps: seq<DProp>): int {
    match Lookup(ps, CellsName())
    case None => 2
    case Some(v) =>
      if |v| != 4 || U32(v, 0) > FDT_MAX_NCELLS || U32(v, 0) == 0 then -FDT_ERR_BADNCELLS else U32(v, 0)
  }

  /** 2 without the property, its word if that is 1 to 4, an error otherwise. */
  lemma CellsAre(ps: seq<DProp>)
    ensures var v, r := Lookup(ps, CellsName()), AddressCells(ps);
      if v.None? then r == 2 else if |v.value| == 4 && 1 <= U32(v.value, 0) <= 4 then r == U32(v.value, 0) else r == -14
  {
  }

  method GetAddressCells(f: Fdt, nodeoffset: nat, ghost p: seq<nat>) returns (r: int)
    requires f.Valid() && IsPath(f.root, p) && nodeoffset == NodeOff(f.root, p)
    ensures r == AddressCells(Mean(f.Strings(), At(f.root, p)).props)
  {
    hide StringsOf, Wf, At, Mean, Lookup, NodeOff, U32, Load;
    ghost var v := Lookup(Mean(f.Strings(), At(f.root, p)).props, CellsName());
    var data, len := GetProp(f, nodeoffset, CellsName(), p);
    if len < 0 { return if len == -FDT_ERR_NOTFOUND then 2 else len; }
    if len != 4 { return -FDT_ERR_BADNCELLS; }
    WordAt(f.mem, data, v.value);
    var val := Load(f.mem, data);
    if val > FDT_MAX_NCELLS || val == 0 { return -FDT_ERR_BADNCELLS; }
    return val;
  }

  /** fdt_setprop_uxx: the bytes of an address. */
  function Cell(x: nat, isU64: bool): (r: bytes)
    ensures |r| == if isU64 then 8 else 4
  {
    if isU64 then BE64(x) else BE32(x % TWO32)
  }

  /** The overlay: a chosen node with the two addresses, as wide as the root's address cells say. */
  function InitrdNode(d: DT, start: nat, end: nat): DT {
    var isU64 := AddressCells(d.props) == 2;
    DT(ChosenName(), [DProp(StartName(), Cell(start, isU64)), DProp(EndName(), Cell(end, isU64))], [])
  }

  /** The first n of its properties. */
  function InitrdPart(d: DT, start: nat, end: nat, n: nat): DT
    requires n <= 2
  {
    InitrdNode(d, start, end).(props := InitrdNode(d, start, end).props[..n])
  }

  /** Properties with the first n addresses set. */
  function AddressesSet(ps: seq<DProp>, start: bytes, end: bytes, n: nat): seq<DProp> {
    if n == 0 then ps
    else if n == 1 then SetP(ps, StartName(), start)
    else SetP(SetP(ps, StartName(), start), EndName(), end)
  }

  lemma NoneSet(ps: seq<DProp>, start: bytes, end: bytes)
    ensures AddressesSet(ps, start, end, 0) == ps
  {
  }

  /** Tree d with a chosen node that has the first n addresses. */
  function WithInitrd(d: DT, start: nat, end: nat, n: nat): DT
    requires n <= 2
  {
    d.(kids := MergeKid(d.kids, InitrdPart(d, start, end, n)))
  }

  lemma ChosenMerged(c: DT, d: DT, start: nat, end: nat, n: nat)
    requires n <= 2
    ensures var o := InitrdNode(d, start, end);
      MergeTree(c, InitrdPart(d, start, end, n)) == c.(props := AddressesSet(c.props, o.props[0].value, o.props[1].value, n))
    ensures n == 2 ==> InitrdPart(d, start, end, n) == InitrdNode(d, start, end)
  {
    hide SetP, MergeProps;
    var o := InitrdNode(d, start, end);
    MergeNil(c.props);
    MergePropsSnoc(c.props, [], o.props[0]);
    assert o.props[..0] == [] && [] + [o.props[0]] == o.props[..1] && o.props[..2] == [o.props[0], o.props[1]];
    TwoProps(c.props, o.props[0], o.props[1]);
  }

  lemma AddressNeeds(d: DT, start: nat, end: nat)
    ensures PropNeed(InitrdNode(d, start, end).props[0]) + PropNeed(InitrdNode(d, start, end).props[1]) == TreeNeed(InitrdNode(d, start, end))
  {
    hide SetP, PropNeed, MergeProps, PropsNeed;
    var o := InitrdNode(d, start, end);
    TwoProps([], o.props[0], o.props[1]);
  }

  lemma TwoProps(ps: seq<DProp>, a: DProp, b: DProp)
    ensures MergeProps(ps, [a, b]) == SetP(SetP(ps, a.name, a.value), b.name, b.value)
    ensures PropsNeed([a, b]) == PropNeed(a) + PropNeed(b)
  {
    hide SetP, PropNeed, MergeProps, PropsNeed;
    assert [a] + [b] == [a, b] && [] + [a] == [a];
    MergeNil(ps);
    MergePropsSnoc(ps, [], a);
    MergePropsSnoc(ps, [a], b);
    PropsNeedCat([a], [b]);
    OneNeed(a);
    OneNeed(b);
  }

  lemma OneNeed(a: DProp)
    ensures PropsNeed([a]) == PropNeed(a)
  {
    assert [a][1..] == [];
  }

  lemma KidThere(r: Item, c: nat)
    requires r.Node? && IsPath(r, [] + [c])
    ensures c < |r.items| && r.items[c].Node? && ItemOff(r, [], c) == NodeOff(r, [] + [c])
  {
    hide Flat, FlatS, Enc;
    KidPath(r, [], c);
  }

  /** The child chosen, to be merged into. */
  method Chosen(f: Fdt) returns (r: int, ghost c: nat, ghost e: DT)
    requires f.Valid()
    modifies f, f.mem
    ensures f.Valid() && f.rsv == old(f.rsv)
    ensures if r < 0 then r == -FDT_ERR_NOSPACE && f.root == old(f.root) && f.Strings() == old(f.Strings()) && Short(old(f.hdr), 8 + TagAlign(|ChosenName()| + 1))
            else GrewWithin(old(f.hdr), f.hdr, 8 + TagAlign(|ChosenName()| + 1)) &&
                 Merging(old(f.root), old(f.Strings()), f, f.rsv, [], e) && KidTarget(f.root, [], c, r, old(f.Meaning()), e, ChosenName())
  {
    hide StringsOf, Wf, At, Put, PropsOf, KidsOf, ItemOff, NodeOff, Edited, NodeBecame, NewNode, KidTarget, Mean;
    ghost var r1, t1 := f.root, f.Strings();
    WfLaid(f.hdr, f.mem[..], r1, f.rsv);
    RootPath(r1);
    ghost var d := f.Meaning();
    c, e := KidIdx(r1.items, Named(ChosenName())), d;
    EditedRefl(r1, t1, []);
    OldKid(r1, t1, [], ChosenName());
    r := FindOrAddSubnode(f, 0, ChosenName(), []);
    if r >= 0 && c < |r1.items| {
      MergingStart(f, []);
    } else if r >= 0 {
      c, e := KidIdx(r1.items, Any), AddKid(d, ChosenName());
      MadeKid(r1, t1, [], ChosenName());
      AddedNode(r1, [], ChosenName());
      MergingStep(r1, t1, r1, t1, f, f.rsv, [], e);
      KidThere(f.root, c);
    }
  }

  /** The two addresses of the chosen node. */
  method PutAddresses(f: Fdt, node: nat, start: bytes, end: bytes, ghost p: seq<nat>, ghost r0: Item, ghost t0: bytes, ghost d: DT)
      returns (err: int, ghost done: nat)
    requires Merging(r0, t0, f, f.rsv, p, d) && node == NodeOff(r0, p) && |start| == |end| <= 8
    modifies f, f.mem
    ensures f.Valid() && f.rsv == old(f.rsv) && (err == 0 || err == -FDT_ERR_NOSPACE)
    ensures done <= 2 && (err == 0 <==> done == 2)
    ensures Merging(r0, t0, f, f.rsv, p, d.(props := AddressesSet(d.props, start, end, done)))
    ensures var n := PropNeed(DProp(StartName(), start)) + PropNeed(DProp(EndName(), end));
      if err == 0 then GrewWithin(old(f.hdr), f.hdr, n) else Short(old(f.hdr), n)
  {
    hide StringsOf, Wf, NodeOff, Merging, SetP, PropNeed;
    done := 0;
    assert d.(props := d.props) == d;
    err := ApplyProp(f, node, StartName(), start, p, r0, t0, d);
    ghost var e := if err == 0 then d.(props := SetP(d.props, StartName(), start)) else d;
    MergingFacts(r0, t0, f, p, e);
    if err < 0 { return; }
    done := 1;
    err := ApplyProp(f, node, EndName(), end, p, r0, t0, e);
    MergingFacts(r0, t0, f, p, if err == 0 then e.(props := SetP(e.props, EndName(), end)) else e);
    if err == 0 { done := 2; }
  }

  /** Room for everything fdt_initrd adds. */
  function InitrdNeed(d: DT, start: nat, end: nat): nat {
    16 + KidNeed(InitrdNode(d, start, end))
  }

  /** 16 bytes for the reservation, 16 for the node, and 39 and 37 for the two properties and their names. */
  lemma NeedAtMost(d: DT, start: nat, end: nat)
    ensures InitrdNeed(d, start, end) <= 108
  {
    hide Cell, AddressCells;
    AddressNeeds(d, start, end);
  }

  /** The reservations fdt_initrd leaves. */
  function InitrdRsv(l: seq<Rsv>, start: nat, end: nat): seq<Rsv>
    requires start <= end
  {
    Dropped(l, start) + [Rsv(start, end - start)]
  }

  // ------------------------------------------------------------------ what the chosen node then holds

  /**
    v stores address x: as a doubleword if the root, with properties ps, has no address cells or the
    word 2 there, otherwise as a word, which keeps the low 32 bits.
   */
  predicate Stores(ps: seq<DProp>, v: Option<bytes>, x: nat) {
    var c := Lookup(ps, CellsName());
    && v.Some?
    && if c.None? || (|c.value| == 4 && U32(c.value, 0) == 2) then
         |v.value| == 8 && TWO32 * U32(v.value, 0) + U32(v.value, 4) == x
       else
         |v.value| == 4 && U32(v.value, 0) == x % TWO32
  }

  /** The value of a property of the child of d that "chosen" selects. */
  function ChosenValue(d: DT, name: bytes): Option<bytes> {
    var c := FindKidD(d.kids, ChosenName());
    if c < |d.kids| then Lookup(d.kids[c].props, name) else None
  }

  /** e is d whose child "chosen", new if need be, stores both addresses; no other value is different. */
  ghost predicate InitrdSet(d: DT, e: DT, start: nat, end: nat) {
    && FindKidD(e.kids, ChosenName()) < |e.kids| && e.name == d.name && e.props == d.props
    && Stores(d.props, ChosenValue(e, StartName()), start) && Stores(d.props, ChosenValue(e, EndName()), end)
    && (forall name :: name != StartName() && name != EndName() ==> ChosenValue(e, name) == ChosenValue(d, name))
    && var c, shift := FindKidD(d.kids, ChosenName()), if FindKidD(d.kids, ChosenName()) < |d.kids| then 0 else 1;
       |e.kids| == |d.kids| + shift && forall i :: 0 <= i < |d.kids| && i != c ==> e.kids[i + shift] == d.kids[i]
  }

  lemma CellReads(ps: seq<DProp>, x: nat)
    requires x < TWO64
    ensures Stores(ps, Some(Cell(x, AddressCells(ps) == 2)), x)
  {
    hide BE32, U32;
    var v := Cell(x, AddressCells(ps) == 2);
    BE32RoundTrip(x % TWO32);
    if |v| == 8 {
      BE32RoundTrip(x / TWO32 % TWO32);
      U32Of(v, 0, x / TWO32 % TWO32);
      U32Of(v, 4, x % TWO32);
    }
  }

  /** The merge of the small overlay is just that. */
  lemma InitrdMeans(d: DT, start: nat, end: nat)
    requires start < TWO64 && end < TWO64
    ensures InitrdSet(d, d.(kids := MergeKid(d.kids, InitrdNode(d, start, end))), start, end)
  {
    hide MergeKid, MergeProps, Cell, AddressCells, Stores;
    var o := InitrdNode(d, start, end);
    var e, c := d.(kids := MergeKid(d.kids, o)), FindKidD(d.kids, o.name);
    MergedKid(d.kids, o);
    forall i | 0 <= i < c && c < |d.kids|
      ensures e.kids[i] == d.kids[i]
    {
      assert e.kids[i + 0] == d.kids[i];
    }
    FindKidDIs(e.kids, o.name, if c < |d.kids| then c else 0);
    CellReads(d.props, start);
    CellReads(d.props, end);
    var was, c' := if c < |d.kids| then d.kids[c].props else [], if c < |d.kids| then c else 0;
    assert e.kids[c'].props == MergeProps(was, o.props);
    forall name
      ensures ChosenValue(e, name) == if name == EndName() then Some(o.props[1].value) else
        if name == StartName() then Some(o.props[0].value) else ChosenValue(d, name)
    {
      MergedProps(was, o.props, name);
      TwoValues(o.props[0], o.props[1], name);
    }
    assert StartName() != EndName();
  }

  lemma TwoValues(a: DProp, b: DProp, name: bytes)
    ensures LastValue([a, b], name) == if name == b.name then Some(b.value) else if name == a.name then Some(a.value) else None
  {
    var os := [a, b];
    assert os[..|os| - 1] == [a];
    assert LastValue(os, name) == if name == b.name then Some(b.value) else LastValue([a], name);
    assert [a][..|[a]| - 1] == [];
  }

  /** How far it got without room: nothing done; the chosen node there; or the reservations too, and done of the addresses. */
  predicate Stopped(d: DT, l: seq<Rsv>, start: nat, end: nat, now: DT, k: seq<Rsv>) {
    || (k == l && (now == d || now == WithInitrd(d, start, end, 0)))
    || (start <= end && k == InitrdRsv(l, start, end) && (now == WithInitrd(d, start, end, 0) || now == WithInitrd(d, start, end, 1)))
  }

  /**
    fdt_initrd: the first reservation at the address is dropped and the new one appended, and the
    tree is the old one with a chosen node holding the two addresses merged into it.
   */
  method FdtInitrd(f: Fdt, initrdStart: nat, initrdEnd: nat) returns (err: int)
    requires f.Valid() && initrdStart <= initrdEnd < TWO64
    modifies f, f.mem
    ensures f.Valid()
    ensures initrdStart == initrdEnd ==> err == 0 && f.hdr == old(f.hdr) && f.mem[..] == old(f.mem[..]) && f.root == old(f.root) && f.rsv == old(f.rsv)
    ensures initrdStart < initrdEnd && err == 0 ==> f.rsv == InitrdRsv(old(f.rsv), initrdStart, initrdEnd)
    ensures initrdStart < initrdEnd && err == 0 ==> var d := old(f.Meaning());
      f.Meaning() == d.(kids := MergeKid(d.kids, InitrdNode(d, initrdStart, initrdEnd)))
    ensures initrdStart < initrdEnd && err == 0 ==>
      && InitrdSet(old(f.Meaning()), f.Meaning(), initrdStart, initrdEnd)
      && Renewed(old(f.rsv), Rsv(initrdStart, initrdEnd - initrdStart), f.rsv)
    ensures err != 0 ==> err == -FDT_ERR_NOSPACE && old(DataSize(f.hdr)) + 108 > old(f.hdr.totalsize)
    ensures err != 0 ==> Stopped(old(f.Meaning()), old(f.rsv), initrdStart, initrdEnd, f.Meaning(), f.rsv)
  {
    hide StringsOf, Wf, At, PropsOf, KidsOf, ItemOff, NodeOff, Edited, KidTarget, Mean, Merging, SetP, PropNeed, MergeTree, MergeKid, AddressCells, Dropped, OkItem, IsPath, InitrdPart, AddressesSet, InitrdSet, Renewed;
    if initrdStart == initrdEnd { return 0; }
    ghost var r0, t0, d, h := f.root, f.Strings(), f.Meaning(), f.hdr;
    var node;
    ghost var c, e;
    node, c, e := Chosen(f);
    AddressNeeds(d, initrdStart, initrdEnd);
    InitrdMeans(d, initrdStart, initrdEnd);
    NeedAtMost(d, initrdStart, initrdEnd);
    RenewedBy(f.rsv, Rsv(initrdStart, initrdEnd - initrdStart));
    if node < 0 { return node; }
    MergingFacts(r0, t0, f, [], e);
    KidStart(f, r0, t0, [], c, node, d, e, ChosenName());
    ghost var r1, t1, l := f.root, f.Strings(), f.rsv;
    ghost var y := Mean(t1, At(r1, [] + [c]));
    MergingStart(f, [] + [c]);
    RootPath(f.root);
    NoneSet(y.props, Cell(initrdStart, AddressCells(d.props) == 2), Cell(initrdEnd, AddressCells(d.props) == 2));
    assert y.(props := y.props) == y;
    Merged(f, r0, t0, r1, t1, c, node, d, e, y, initrdStart, initrdEnd, 0);
    err := InitrdReserve(f, initrdStart, initrdEnd);
    if err < 0 { return; }
    MergingStart(f, [] + [c]);
    KidProps(r1, [], c, node, d, e, ChosenName());
    var cells := GetAddressCells(f, 0, []);
    ghost var done;
    err, done := PutAddresses(f, node, Cell(initrdStart, cells == 2), Cell(initrdEnd, cells == 2), [] + [c], r1, t1, y);
    ChosenMerged(y, d, initrdStart, initrdEnd, done);
    Merged(f, r0, t0, r1, t1, c, node, d, e, y, initrdStart, initrdEnd, done);
  }

  /** What the whole tree means, once the first n addresses are in the chosen node. */
  lemma Merged(f: Fdt, r0: Item, t0: bytes, r1: Item, t1: bytes, c: nat, node: int, d: DT, e: DT, y: DT, start: nat, end: nat, n: nat)
    requires n <= 2 && KidTarget(r1, [], c, node, d, e, ChosenName()) && OkItem(t1, r1)
    requires Edited(r0, t0, r1, t1, []) && NodeOff(r1, []) == NodeOff(r0, []) && Mean(t1, At(r1, [])) == e
    requires IsPath(r1, [] + [c]) && At(r1, [] + [c]) == At(r1, []).items[c] && y == Mean(t1, At(r1, [] + [c]))
    requires var o := InitrdNode(d, start, end);
      Merging(r1, t1, f, f.rsv, [] + [c], y.(props := AddressesSet(y.props, o.props[0].value, o.props[1].value, n)))
    ensures f.Valid() && f.Meaning() == WithInitrd(d, start, end, n)
  {
    hide StringsOf, Wf, At, PropsOf, KidsOf, NodeOff, Edited, Mean, Merging, MergeTree, MergeKid, OkItem, IsPath, AddressesSet, Cell;
    var o := InitrdPart(d, start, end, n);
    ChosenMerged(y, d, start, end, n);
    TargetThere(r1, [], c, node, d, e, ChosenName());
    MergingUp(r0, t0, r1, t1, f, f.rsv, [], c, MergeTree(y, o));
    TargetMerges(r1, [], c, node, d, e, o);
    MergingFacts(r0, t0, f, [], WithInitrd(d, start, end, n));
    RootPath(f.root);
  }

  lemma TargetThere(r: Item, p: seq<nat>, c: nat, off: int, d: DT, e: DT, name: bytes)
    requires KidTarget(r, p, c, off, d, e, name)
    ensures IsPath(r, p) && c < |At(r, p).items| && At(r, p).items[c].Node?
  {
  }

  lemma KidProps(r: Item, p: seq<nat>, c: nat, off: int, d: DT, e: DT, name: bytes)
    requires KidTarget(r, p, c, off, d, e, name)
    ensures e.props == d.props && r.Node? && IsPath(r, p) && c < |At(r, p).items| && At(r, p).items[c].Node?
  {
  }
}
