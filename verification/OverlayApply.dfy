/**
  fdt_overlay.c: fdt_overlay_apply for overlays without references to symbols of the base tree.
 */
module OverlayApply {
  import opened Bytes
  import opened Tree
  import opened Meaning
  import opened Blob
  import opened Walk
  import opened TreeWalk
  import opened AddNode
  import opened Merge
  import opened Overlay
  import opened OverlayTarget
  import opened OverlayMerge
  import opened Paths
  import opened InPlace
  import opened Phandles
  import opened References

  /** "__local_fixups__", "__fixups__", "__symbols__" */
  function LocalFixupsName(): (r: bytes)
    ensures NoNul(r) && r != [] && SLASH !in r
  {
    [95, 95, 108, 111, 99, 97, 108, 95, 102, 105, 120, 117, 112, 115, 95, 95]
  }

  function FixupsName(): (r: bytes)
    ensures NoNul(r) && r != [] && SLASH !in r
  {
    [95, 95, 102, 105, 120, 117, 112, 115, 95, 95]
  }

  function SymbolsName(): (r: bytes)
    ensures NoNul(r) && r != [] && SLASH !in r
  {
    [95, 95, 115, 121, 109, 98, 111, 108, 115, 95, 95]
  }

  /** A tree with the references its local fixups list raised by delta. */
  function PatchLocal(d: DT, delta: nat): (r: Outcome<DT>)
    ensures r.Bad? ==> r.err == FDT_ERR_BADOVERLAY || r.err == STRAY
  {
    var c := FindKidD(d.kids, LocalFixupsName());
    if c == |d.kids| then Fine(d) else PatchTree(d, d.kids[c], delta)
  }

  /** The local fixups are no fixups of themselves. */
  ghost predicate FixupsOk(d: DT) {
    var c := FindKidD(d.kids, LocalFixupsName());
    c < |d.kids| ==> forall i :: 0 <= i < |d.kids[c].kids| ==> FindKidD(d.kids, d.kids[c].kids[i].name) != c
  }

  /** fdt_path_offset of a child of the root. */
  method RootChild(f: Fdt, name: bytes) returns (r: int, ghost k: nat)
    requires f.Valid() && NoNul(name) && name != [] && SLASH !in name
    ensures f.root.Node? && k == KidIdx(f.root.items, Named(name))
    ensures if k < |f.root.items| then IsPath(f.root, [k]) && r == NodeOff(f.root, [k]) else r == -FDT_ERR_NOTFOUND
  {
    hide Wf, NodeOff, KidIdx, Segs;
    ghost var goal;
    r, goal := PathOffset(f, [SLASH] + name);
    k := KidIdx(f.root.items, Named(name));
    SegOfPath(name, []);
    assert [SLASH] + name + [] == [SLASH] + name;
    EmptyPath();
    FollowUnfold(f.root, name, []);
    assert [k] + [] == [k] && [name] + [] == [name];
  }

  lemma EmptyPath()
    ensures Segs([]) == []
  {
  }

  /** overlay_update_local_references */
  method UpdateLocalReferences(f: Fdt, delta: nat) returns (ret: int)
    requires f.Valid() && delta < TWO32 && FixupsOk(f.Meaning())
    modifies f`root, f.mem
    ensures f.Valid() && f.Strings() == old(f.Strings()) && SameShape(old(f.root), f.root)
    ensures match PatchLocal(old(f.Meaning()), delta)
      case Bad(x) => ret == -x
      case Fine(e) => ret == 0 && f.Meaning() == e
  {
    hide StringsOf, Wf, PropsOf, KidsOf, SameShape, PatchTree, KidIdx, FindKidD, NodeOff;
    ghost var k, d, t := 0, f.Meaning(), f.Strings();
    WfLaid(f.hdr, f.mem[..], f.root, f.rsv);
    ShapeRefl(f.root);
    KidBoth(t, f.root.items, LocalFixupsName());
    var fixups;
    fixups, k := RootChild(f, LocalFixupsName());
    if fixups < 0 {
      return if fixups == -FDT_ERR_NOTFOUND then 0 else fixups;
    }
    MeanPutStep(t, f.root.items, k, f.root.items[k]);
    NotTheFixups(f.root, t, k);
    RootPath(f.root);
    MergingStart(f, []);
    ret := UpdateNode(f, 0, fixups, delta, [], [k], f.root, t, d);
    WfLaid(f.hdr, f.mem[..], f.root, f.rsv);
    RootPath(f.root);
  }

  lemma NotTheFixups(root: Item, t: bytes, k: nat)
    requires root.Node? && k == KidIdx(root.items, Named(LocalFixupsName())) && k < |root.items| && FixupsOk(Mean(t, root))
    ensures IsPath(root, [k]) && Elsewhere(root, [], [k], Mean(t, root.items[k]))
  {
    hide NameEq;
    var d := Mean(t, root);
    KidBoth(t, root.items, LocalFixupsName());
    MeanPutStep(t, root.items, k, root.items[k]);
    var c := FindKidD(d.kids, LocalFixupsName());
    forall i | 0 <= i < |d.kids[c].kids|
      ensures KidIdx(root.items, Named(d.kids[c].kids[i].name)) != k
    {
      KidBoth(t, root.items, d.kids[c].kids[i].name);
    }
  }

  // ------------------------------------------------------------------ fdt_overlay_apply

  /** The overlay once its phandles and the references to them are raised past those of the base. */
  function Adjusted(d: DT, o: DT): (r: Outcome<DT>)
    ensures r.Bad? ==> r.err in {FDT_ERR_BADPHANDLE, FDT_ERR_NOPHANDLES, FDT_ERR_BADOVERLAY, STRAY}
  {
    match ShiftTree(o, MaxPhandle(d))
    case Bad(e) => Bad(e)
    case Fine(s) => PatchLocal(s, MaxPhandle(d))
  }

  function Applied(d: DT, o: DT): Merged {
    match Adjusted(d, o)
    case Bad(e) => Error(e)
    case Fine(p) => MergeFragments(d, p.kids)
  }

  /** What the calls rely on: no fixups against the base, no symbols, and local fixups and target paths as a compiler writes them. */
  ghost predicate PlainOverlay(d: DT, o: DT) {
    && FindKidD(o.kids, FixupsName()) == |o.kids| && FindKidD(o.kids, SymbolsName()) == |o.kids|
    && (ShiftTree(o, MaxPhandle(d)).Fine? ==> FixupsOk(ShiftTree(o, MaxPhandle(d)).value))
    && (Adjusted(d, o).Fine? ==> PathsOk(Adjusted(d, o).value.kids))
  }

  lemma ShapeKidKept(r: Item, r': Item, name: bytes)
    requires SameShape(r, r') && r.Node?
    ensures r'.Node? && |r'.items| == |r.items| && KidIdx(r'.items, Named(name)) == KidIdx(r.items, Named(name))
  {
    hide SameShape;
    KindKept(r, r');
    ShapeKid(r.items, r'.items, Named(name));
  }

  /** overlay_fixup_phandles, when there is nothing to do. */
  method FixupPhandles(fdto: Fdt) returns (ret: int)
    requires fdto.Valid() && FindKidD(fdto.Meaning().kids, FixupsName()) == |fdto.Meaning().kids|
    ensures ret == 0
  {
    hide KidIdx, FindKidD, KidsOf;
    ghost var k := 0;
    WfLaid(fdto.hdr, fdto.mem[..], fdto.root, fdto.rsv);
    KidBoth(fdto.Strings(), fdto.root.items, FixupsName());
    var fixups;
    fixups, k := RootChild(fdto, FixupsName());
    if fixups == -FDT_ERR_NOTFOUND { return 0; }
    return fixups;
  }

  /** overlay_symbol_update, when there is nothing to do. */
  method SymbolUpdate(fdto: Fdt) returns (ret: int)
    requires fdto.Valid() && FindKidD(fdto.Meaning().kids, SymbolsName()) == |fdto.Meaning().kids|
    ensures ret == 0
  {
    hide KidIdx, FindKidD, KidsOf, NodeOff;
    WfLaid(fdto.hdr, fdto.mem[..], fdto.root, fdto.rsv);
    KidBoth(fdto.Strings(), fdto.root.items, SymbolsName());
    RootPath(fdto.root);
    var ovSym := SubnodeOffset(fdto, 0, SymbolsName(), []);
    return 0;
  }

  /** The steps of fdt_overlay_apply, up to the first that fails. */
  method Steps(f: Fdt, fdto: Fdt) returns (ret: int)
    requires f.Valid() && fdto.Valid() && f != fdto && f.mem != fdto.mem && PlainOverlay(f.Meaning(), fdto.Meaning())
    modifies f, f.mem, fdto`root, fdto.mem
    ensures f.Valid() && f.rsv == old(f.rsv)
    ensures ret != -FDT_ERR_NOSPACE ==> match Applied(old(f.Meaning()), old(fdto.Meaning()))
      case Tree(d) => ret == 0 && f.Meaning() == d
      case Error(e) => ret == -e
    ensures ret == -FDT_ERR_NOSPACE ==> var a := Adjusted(old(f.Meaning()), old(fdto.Meaning()));
      a.Fine? && Short(old(f.hdr), FragmentsNeed(a.value.kids))
  {
    hide StringsOf, Wf, Mean, ShiftTree, PatchLocal, MaxPhandle, MergeFragments, FragmentsNeed, FindKidD, FixupsOk, PathsOk, SameShape, Short;
    ghost var d, o, r0 := f.Meaning(), fdto.Meaning(), fdto.root;
    WfLaid(fdto.hdr, fdto.mem[..], r0, fdto.rsv);
    var err, delta := FindMaxPhandle(f);
    PhandleFits(d);
    if err != 0 { return err; }
    ret := AdjustLocalPhandles(fdto, delta);
    if ret != 0 { return; }
    ghost var r1 := fdto.root;
    ret := UpdateLocalReferences(fdto, delta);
    if ret != 0 { return; }
    ShapeTrans(r0, r1, fdto.root);
    NoneStill(r0, fdto.root, fdto.Strings(), FixupsName());
    NoneStill(r0, fdto.root, fdto.Strings(), SymbolsName());
    ret := FixupPhandles(fdto);
    if ret != 0 { return; }
    ret := MergeOverlay(f, fdto);
    if ret != 0 { return; }
    ret := SymbolUpdate(fdto);
  }

  lemma NoneStill(r: Item, r': Item, t: bytes, name: bytes)
    requires SameShape(r, r') && r.Node? && FindKidD(Mean(t, r).kids, name) == |Mean(t, r).kids|
    ensures r'.Node? && FindKidD(Mean(t, r').kids, name) == |Mean(t, r').kids|
  {
    hide SameShape, KidIdx, FindKidD, KidsOf, PropsOf;
    ShapeKidKept(r, r', name);
    KidBoth(t, r.items, name);
    KidBoth(t, r'.items, name);
  }

  /**
    fdt_overlay_apply: the base means the merge of the adjusted overlay into it; the overlay is
    spoilt, and on an error the base too.
   */
  method Apply(f: Fdt, fdto: Fdt) returns (ret: int)
    requires f.Valid() && fdto.Valid() && f != fdto && f.mem != fdto.mem && PlainOverlay(f.Meaning(), fdto.Meaning())
    modifies f, f.mem, fdto`hdr, fdto`root, fdto.mem
    ensures ret != -FDT_ERR_NOSPACE ==> match Applied(old(f.Meaning()), old(fdto.Meaning()))
      case Tree(d) => ret == 0 && f.Valid() && f.rsv == old(f.rsv) && f.Meaning() == d
      case Error(e) => ret == -e
    ensures ret == -FDT_ERR_NOSPACE ==> var a := Adjusted(old(f.Meaning()), old(fdto.Meaning()));
      a.Fine? && Short(old(f.hdr), FragmentsNeed(a.value.kids))
    ensures !Probed(fdto) && (ret != 0 ==> !Probed(f))
  {
    hide StringsOf, Wf, Mean, Applied, Adjusted, FragmentsNeed, PlainOverlay, Short;
    WfLaid(f.hdr, f.mem[..], f.root, f.rsv);
    WfLaid(fdto.hdr, fdto.mem[..], fdto.root, fdto.rsv);
    if f.ChkBasic() && RoProbe(f) < 0 { return RoProbe(f); }
    if fdto.ChkBasic() && RoProbe(fdto) < 0 { return RoProbe(fdto); }
    ret := Steps(f, fdto);
    fdto.hdr := fdto.hdr.(magic := TWO32 - 1);
    if ret != 0 {
      f.hdr := f.hdr.(magic := TWO32 - 1);
    }
  }
}
