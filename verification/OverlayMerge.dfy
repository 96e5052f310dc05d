/**
  overlay_merge of fdt_overlay.c: every fragment with an __overlay__ node is merged into its target,
  one after the other.
 */
module OverlayMerge {
  import opened Bytes
  import opened Tokens
  import opened Tree
  import opened Meaning
  import opened Blob
  import opened Walk
  import opened TreeWalk
  import opened Props
  import opened Effects
  import opened AddNode
  import opened Merge
  import opened Overlay
  import opened OverlayTarget

  /** "__overlay__" */
  function OverlayName(): (r: bytes)
    ensures NoNul(r)
  {
    [95, 95, 111, 118, 101, 114, 108, 97, 121, 95, 95]
  }

  datatype Merged = Tree(d: DT) | Error(err: int)

  /** One fragment: nothing if it has no __overlay__ node, else the merge of that node into the target. */
  function MergeFragment(d: DT, fr: DT): (r: Merged)
    ensures r.Error? ==> r.err > 0 && r.err != FDT_ERR_NOSPACE
  {
    var c := FindKidD(fr.kids, OverlayName());
    if c == |fr.kids| then Merged.Tree(d)
    else match TargetOf(d, fr.props)
      case Fails(e) => Error(e)
      case Goal(q) => Merged.Tree(DPut(d, q, MergeTree(DAt(d, q), fr.kids[c])))
  }

  /** All fragments in order; each sees what those before it have done. */
  function MergeFragments(d: DT, frs: seq<DT>): Merged {
    if frs == [] then Merged.Tree(d)
    else
      var init := MergeFragments(d, frs[..|frs| - 1]);
      if init.Error? then init else MergeFragment(init.d, frs[|frs| - 1])
  }

  lemma FragmentsStep(d: DT, frs: seq<DT>, fr: DT)
    ensures MergeFragments(d, frs + [fr]) ==
      var init := MergeFragments(d, frs); if init.Error? then init else MergeFragment(init.d, fr)
  {
    assert (frs + [fr])[..|frs|] == frs;
  }

  /** The room a fragment, and a list of them, may need in the base. */
  function FragmentNeed(fr: DT): nat {
    var c := FindKidD(fr.kids, OverlayName());
    if c == |fr.kids| then 0 else TreeNeed(fr.kids[c])
  }

  function FragmentsNeed(frs: seq<DT>): nat {
    if frs == [] then 0 else FragmentsNeed(frs[..|frs| - 1]) + FragmentNeed(frs[|frs| - 1])
  }

  lemma {:induction false} FragmentsNeedStep(frs: seq<DT>, k: nat)
    requires k < |frs|
    ensures FragmentsNeed(frs[..k + 1]) == FragmentsNeed(frs[..k]) + FragmentNeed(frs[k]) <= FragmentsNeed(frs)
    decreases |frs|
  {
    assert frs[..k + 1][..k] == frs[..k];
    if k + 1 == |frs| {
      assert frs[..k + 1] == frs;
    } else {
      var init := frs[..|frs| - 1];
      FragmentsNeedStep(init, k);
      assert init[..k + 1] == frs[..k + 1] && init[..k] == frs[..k];
    }
  }

  // ------------------------------------------------------------------ the room an overlay may need, in its own size

  lemma NameShort(t: bytes, off: nat)
    requires Terminated(t, off)
    ensures |StrAt(t, off)| + 1 <= |t|
  {
    StrAtHolds(t, off);
  }

  lemma Times(n: nat, a: nat, b: nat)
    ensures n * (a + b) == n * a + n * b
  {
  }

  lemma EncSum(a: seq<Tok>, b: seq<Tok>)
    ensures |Enc(a + b)| == |Enc(a)| + |Enc(b)|
  {
    EncConcat(a, b);
  }

  /** A node needs no more than its own tokens, with a string as long as the strings block for each. */
  lemma {:induction false} NodeNeed(t: bytes, it: Item)
    requires it.Node? && OkItem(t, it)
    ensures KidNeed(Mean(t, it)) <= |Enc(Flat(it))| + |t| * |Flat(it)|
    decreases it, 1
  {
    hide Enc, FlatS, PropsOf, KidsOf, PropsNeed, KidsNeed, BE32, TagAlign;
    var a, e := [TBegin(it.name, it.npad)], [TEnd];
    ItemsNeed(t, it.items);
    EncSum(a, FlatS(it.items));
    EncSum(a + FlatS(it.items), e);
    EncOne(TBegin(it.name, it.npad));
    EncOne(TEnd);
    BeginSize(it.name, it.npad);
    Times(|t|, |FlatS(it.items)|, 2);
  }

  lemma BeginSize(n: bytes, pad: bytes)
    requires OkTok(TBegin(n, pad))
    ensures |EncTok(TBegin(n, pad))| == 4 + TagAlign(|n| + 1) && |EncTok(TEnd)| == 4
  {
    hide BE32, TagAlign;
    Aligned(|n| + 1, |pad|);
  }

  lemma Aligned(x: nat, pad: nat)
    requires pad < 4 && (x + pad) % 4 == 0
    ensures TagAlign(x) == x + pad
  {
  }

  lemma {:induction false} ItemsNeed(t: bytes, its: seq<Item>)
    requires OkItems(t, its)
    ensures PropsNeed(PropsOf(t, its)) + KidsNeed(KidsOf(t, its)) <= |Enc(FlatS(its))| + |t| * |FlatS(its)|
    decreases its, 0
  {
    hide Enc, Flat, FlatS, Mean, OkItem, PropNeed, KidNeed, PropsNeed, KidsNeed, PropsOf, KidsOf, StrAt, TagAlign, BE32;
    if its == [] {
      NoItemsNeed(t);
    } else {
      var it, rest := its[0], its[1..];
      ItemsNeed(t, rest);
      FlatHead(its);
      MeanHead(t, its);
      EncSum(Flat(it), FlatS(rest));
      Times(|t|, |Flat(it)|, |FlatS(rest)|);
      if it.Node? {
        NodeNeed(t, it);
        OneNeed(t, it, rest);
      } else if it.Prop? {
        PropItemNeed(t, it);
        OneNeed(t, it, rest);
      }
    }
  }

  lemma FlatHead(its: seq<Item>)
    requires its != []
    ensures FlatS(its) == Flat(its[0]) + FlatS(its[1..])
  {
  }

  lemma NoItemsNeed(t: bytes)
    ensures PropsNeed(PropsOf(t, [])) == 0 && KidsNeed(KidsOf(t, [])) == 0
  {
  }

  lemma MeanHead(t: bytes, its: seq<Item>)
    requires its != []
    ensures PropsOf(t, its) == if its[0].Prop? then [DProp(StrAt(t, its[0].nameoff), its[0].value)] + PropsOf(t, its[1..]) else PropsOf(t, its[1..])
    ensures KidsOf(t, its) == if its[0].Node? then [Mean(t, its[0])] + KidsOf(t, its[1..]) else KidsOf(t, its[1..])
  {
    hide Mean, StrAt;
  }

  lemma PropItemNeed(t: bytes, it: Item)
    requires it.Prop? && OkItem(t, it)
    ensures PropNeed(DProp(StrAt(t, it.nameoff), it.value)) <= |Enc(Flat(it))| + |t| * |Flat(it)|
  {
    hide BE32, StrAt, Terminated, TagAlign;
    Aligned(|it.value|, |it.ppad|);
    EncOne(TProp(it.nameoff, it.value, it.ppad));
    NameShort(t, it.nameoff);
  }

  lemma OneNeed(t: bytes, it: Item, rest: seq<Item>)
    ensures it.Node? ==> KidsNeed([Mean(t, it)] + KidsOf(t, rest)) == KidNeed(Mean(t, it)) + KidsNeed(KidsOf(t, rest))
    ensures it.Prop? ==> var p := DProp(StrAt(t, it.nameoff), it.value); PropsNeed([p] + PropsOf(t, rest)) == PropNeed(p) + PropsNeed(PropsOf(t, rest))
  {
    hide Mean, PropsOf, KidsOf, KidNeed, PropNeed;
    if it.Node? {
      assert ([Mean(t, it)] + KidsOf(t, rest))[1..] == KidsOf(t, rest);
    } else if it.Prop? {
      var p := DProp(StrAt(t, it.nameoff), it.value);
      assert ([p] + PropsOf(t, rest))[1..] == PropsOf(t, rest);
    }
  }

  /** Fragments need no more than all they consist of. */
  lemma {:induction false} FragmentsWithin(frs: seq<DT>)
    ensures FragmentsNeed(frs) <= KidsNeed(frs)
    decreases |frs|
  {
    hide KidNeed, FragmentNeed, KidsNeed;
    if frs == [] {
      MergeKidsNil([]);
    } else {
      var init, fr := frs[..|frs| - 1], frs[|frs| - 1];
      assert frs == init + [fr];
      FragmentsWithin(init);
      KidsNeedCat(init, [fr]);
      FragmentWithin(fr);
    }
  }

  lemma FragmentWithin(fr: DT)
    ensures FragmentNeed(fr) <= KidsNeed([fr])
  {
    hide FindKidD, TreeNeed, TagAlign;
    var c := FindKidD(fr.kids, OverlayName());
    KidAlone(fr);
    if c < |fr.kids| {
      var ks := fr.kids;
      assert ks == ks[..c] + [ks[c]] + ks[c + 1..];
      KidsNeedCat(ks[..c] + [ks[c]], ks[c + 1..]);
      KidsNeedCat(ks[..c], [ks[c]]);
      KidAlone(ks[c]);
    }
  }

  lemma KidAlone(d: DT)
    ensures TreeNeed(d) <= KidsNeed([d]) && KidsNeed(d.kids) <= TreeNeed(d)
  {
    hide PropsNeed, TagAlign;
    assert [d][1..] == [] && KidsNeed([d]) == KidNeed(d) + KidsNeed([]);
  }

  /** The room all fragments of an overlay may need, bounded by the size of its own blocks. */
  lemma OverlayNeed(f: Fdt)
    requires f.Valid()
    ensures FragmentsNeed(f.Meaning().kids) <= f.hdr.sizeStruct + f.hdr.sizeStrings * |Block(f.root)|
  {
    hide FragmentsNeed, KidsNeed, PropsNeed, FlatS, PropsOf, KidsOf, OkItem, TagAlign;
    OkRoot(f);
    WfLaid(f.hdr, f.mem[..], f.root, f.rsv);
    NodeNeed(f.Strings(), f.root);
    FragmentsWithin(f.Meaning().kids);
    EncSum(Flat(f.root), [TFin]);
    StringsSize(f);
    Times(f.hdr.sizeStrings, |Flat(f.root)|, 1);
  }

  lemma StringsSize(f: Fdt)
    requires f.Valid()
    ensures |f.Strings()| == f.hdr.sizeStrings && f.hdr.sizeStruct == |Enc(Block(f.root))|
  {
    hide Flat, Enc, OkItem;
  }

  /** An error stops the merge. */
  lemma {:induction false} ErrorStays(d: DT, frs: seq<DT>, k: nat)
    requires k <= |frs| && MergeFragments(d, frs[..k]).Error?
    ensures MergeFragments(d, frs) == MergeFragments(d, frs[..k])
    decreases |frs|
  {
    if k == |frs| {
      assert frs[..k] == frs;
    } else {
      assert frs[..|frs| - 1][..k] == frs[..k];
      ErrorStays(d, frs[..|frs| - 1], k);
    }
  }

  /** Everything outside the target's subtree is as before: the merge of one fragment is an edit of one node. */
  lemma FragmentElsewhere(d: DT, fr: DT, r: seq<nat>)
    requires MergeFragment(d, fr).Tree? && FindKidD(fr.kids, OverlayName()) < |fr.kids| && TargetOf(d, fr.props).Goal?
    requires DIsPath(d, r) && !(TargetOf(d, fr.props).path <= r)
    ensures DIsPath(MergeFragment(d, fr).d, r)
    ensures var e := DAt(MergeFragment(d, fr).d, r); e.name == DAt(d, r).name && e.props == DAt(d, r).props
  {
    hide MergeTree, TargetOf;
    var q := TargetOf(d, fr.props).path;
    PutElsewhere(d, q, MergeTree(DAt(d, q), fr.kids[FindKidD(fr.kids, OverlayName())]), r);
  }

  lemma {:induction false} PutElsewhere(d: DT, q: seq<nat>, n: DT, r: seq<nat>)
    requires DIsPath(d, q) && DIsPath(d, r) && !(q <= r)
    ensures DIsPath(DPut(d, q, n), r) && DAt(DPut(d, q, n), r).name == DAt(d, r).name && DAt(DPut(d, q, n), r).props == DAt(d, r).props
    decreases q
  {
    if r != [] && q != [] && q[0] == r[0] {
      PrefixTail(q, r);
      PutElsewhere(d.kids[q[0]], q[1..], n, r[1..]);
    }
  }

  lemma PrefixTail(q: seq<nat>, r: seq<nat>)
    requires q != [] && r != [] && q[0] == r[0]
    ensures q <= r <==> q[1..] <= r[1..]
  {
    assert r == [r[0]] + r[1..] && q == [q[0]] + q[1..];
  }

  /** After overlay_apply_node the base tree is the old one with the target merged. */
  lemma AppliedMeans(r0: Item, t0: bytes, f: Fdt, l: seq<Rsv>, p: seq<nat>, e: DT)
    requires Merging(r0, t0, f, l, p, e) && OkItem(t0, r0)
    ensures r0.Node? && IsPath(r0, p) && DIsPath(Mean(t0, r0), DPath(r0, p)) && DAt(Mean(t0, r0), DPath(r0, p)) == Mean(t0, At(r0, p))
    ensures f.Meaning() == DPut(Mean(t0, r0), DPath(r0, p), e)
  {
    hide StringsOf, Wf, PropsOf, KidsOf;
    EditedMeans(r0, t0, f.root, f.Strings(), p);
    MeanPut(t0, r0, p, r0);
  }

  /** The step of overlay_merge for the fragment at item k of the overlay's root. */
  method ApplyFragment(f: Fdt, fdto: Fdt, fragment: nat, ghost k: nat) returns (ret: int)
    requires f.Valid() && fdto.Valid() && f != fdto && f.mem != fdto.mem
    requires IsPath(fdto.root, []) && k < |fdto.root.items| && fdto.root.items[k].Node? && fragment == ItemOff(fdto.root, [], k)
    requires PathOk(Mean(fdto.Strings(), fdto.root.items[k]).props)
    modifies f, f.mem
    ensures f.Valid() && f.rsv == old(f.rsv)
    ensures match MergeFragment(old(f.Meaning()), Mean(fdto.Strings(), fdto.root.items[k]))
      case Tree(d) => ret == -FDT_ERR_NOSPACE || (ret == 0 && f.Meaning() == d)
      case Error(e) => ret == -e && f.Meaning() == old(f.Meaning())
    ensures var n := FragmentNeed(Mean(fdto.Strings(), fdto.root.items[k]));
      if ret == 0 then GrewWithin(old(f.hdr), f.hdr, n) else ret == -FDT_ERR_NOSPACE ==> Short(old(f.hdr), n)
  {
    hide TreeNeed, StringsOf, Wf, Put, PropsOf, KidsOf, ItemOff, NodeOff, Edited, MergeTree, TargetOf, Flat, FlatS, Block, Enc, Pre, Post;
    KidPath(fdto.root, [], k);
    assert [] + [k] == [k];
    NodeFacts(fdto, [k]);
    ghost var to, n := fdto.Strings(), At(fdto.root, [k]);
    ghost var j := KidIdx(n.items, Named(OverlayName()));
    KidBoth(to, n.items, OverlayName());
    var overlay := SubnodeOffset(fdto, fragment, OverlayName(), [k]);
    if overlay == -FDT_ERR_NOTFOUND { return 0; }
    if overlay < 0 { return overlay; }
    OverlayKid(to, n, j);
    KidPath(fdto.root, [k], j);
    ret := ApplyTarget(f, fdto, fragment, overlay, k, j);
  }

  /** Its target, and the merge into it. */
  method ApplyTarget(f: Fdt, fdto: Fdt, fragment: nat, overlay: nat, ghost k: nat, ghost j: nat) returns (ret: int)
    requires f.Valid() && fdto.Valid() && f != fdto && f.mem != fdto.mem
    requires IsPath(fdto.root, [k]) && fragment == NodeOff(fdto.root, [k]) && IsPath(fdto.root, [k] + [j])
    requires overlay == NodeOff(fdto.root, [k] + [j]) && PathOk(Mean(fdto.Strings(), At(fdto.root, [k])).props)
    modifies f, f.mem
    ensures f.Valid() && f.rsv == old(f.rsv)
    ensures match TargetOf(old(f.Meaning()), Mean(fdto.Strings(), At(fdto.root, [k])).props)
      case Goal(q) => ret == -FDT_ERR_NOSPACE ||
        (ret == 0 && f.Meaning() == DPut(old(f.Meaning()), q, MergeTree(DAt(old(f.Meaning()), q), Mean(fdto.Strings(), At(fdto.root, [k] + [j])))))
      case Fails(e) => ret == -e && f.Meaning() == old(f.Meaning())
    ensures var n := TreeNeed(Mean(fdto.Strings(), At(fdto.root, [k] + [j])));
      if ret == 0 then GrewWithin(old(f.hdr), f.hdr, n) else ret == -FDT_ERR_NOSPACE ==> Short(old(f.hdr), n)
  {
    hide TreeNeed, StringsOf, Wf, Put, ItemOff, NodeOff, Edited, MergeTree, TargetOf, Flat, FlatS, Block, Enc, Pre, Post, At, IsPath, Mean, PathOk, Merging;
    ghost var p;
    var target;
    target, p := GetTarget(f, fdto, fragment, [k]);
    if target < 0 { return target; }
    ghost var r0, t0, l := f.root, f.Strings(), f.rsv;
    MergingStart(f, p);
    OkRoot(f);
    ret := ApplyNode(f, target, fdto, overlay, p, [k] + [j], r0, t0, Mean(t0, At(r0, p)));
    if ret == 0 {
      ghost var m := MergeTree(Mean(t0, At(r0, p)), Mean(fdto.Strings(), At(fdto.root, [k] + [j])));
      StillValid(r0, t0, f, l, p, m);
      AppliedMeans(r0, t0, f, l, p, m);
    } else {
      ghost var e :| Merging(r0, t0, f, l, p, e);
      StillValid(r0, t0, f, l, p, e);
    }
  }

  lemma StillValid(r0: Item, t0: bytes, f: Fdt, l: seq<Rsv>, p: seq<nat>, e: DT)
    requires Merging(r0, t0, f, l, p, e)
    ensures f.Valid()
  {
  }

  lemma OverlayKid(t: bytes, n: Item, j: nat)
    requires n.Node? && j == KidIdx(n.items, Named(OverlayName())) && j < |n.items|
    ensures var fr := Mean(t, n); var c := FindKidD(fr.kids, OverlayName()); c < |fr.kids| && fr.kids[c] == Mean(t, n.items[j])
  {
    hide NameEq;
    KidBoth(t, n.items, OverlayName());
    MeanPutStep(t, n.items, j, n.items[j]);
  }

  lemma OkRoot(f: Fdt)
    requires f.Valid()
    ensures OkItem(f.Strings(), f.root) && f.root.Node?
  {
  }

  /** Fragments' target paths are paths from the root. */
  ghost predicate PathsOk(frs: seq<DT>) {
    forall i :: 0 <= i < |frs| ==> PathOk(frs[i].props)
  }

  /** overlay_merge: exactly the fold over the fragments, unless there is less room than they need. */
  method MergeOverlay(f: Fdt, fdto: Fdt) returns (ret: int)
    requires f.Valid() && fdto.Valid() && f != fdto && f.mem != fdto.mem && PathsOk(fdto.Meaning().kids)
    modifies f, f.mem
    ensures f.Valid() && f.rsv == old(f.rsv)
    ensures ret != -FDT_ERR_NOSPACE ==> match MergeFragments(old(f.Meaning()), fdto.Meaning().kids)
      case Tree(d) => ret == 0 && f.Meaning() == d
      case Error(e) => ret == -e
    ensures ret == -FDT_ERR_NOSPACE ==> Short(old(f.hdr), FragmentsNeed(fdto.Meaning().kids))
  {
    hide StringsOf, Wf, PropsOf, KidsOf, ItemOff, NodeOff, MergeFragment, MergeFragments, FragmentNeed, FragmentsNeed, Flat, FlatS, Block, Enc, Pre, Post, PathOk, KidIdx, At, IsPath, ItemPos;
    OkRoot(fdto);
    ghost var its, to, d0, frs, h := fdto.root.items, fdto.Strings(), f.Meaning(), fdto.Meaning().kids, f.hdr;
    RootPath(fdto.root);
    ghost var k := KidIdx(its, Any);
    KidsStart(to, its);
    NoFragments(d0);
    var fragment := FirstKid(fdto, 0, []);
    while fragment >= 0
      invariant f.Valid() && f.rsv == old(f.rsv)
      invariant k <= |its| && (k < |its| ==> its[k].Node?) && fragment == if k < |its| then ItemOff(fdto.root, [], k) else -FDT_ERR_NOTFOUND
      invariant MergeFragments(d0, KidsOf(to, its[..k])) == Merged.Tree(f.Meaning())
      invariant GrewWithin(h, f.hdr, FragmentsNeed(KidsOf(to, its[..k])))
      decreases |its| - k
    {
      FragmentAt(to, its, k);
      FragmentsStep(d0, KidsOf(to, its[..k]), Mean(to, its[k]));
      FragmentsNeedStep(frs, |KidsOf(to, its[..k])|);
      ret := ApplyFragment(f, fdto, fragment, k);
      if ret != 0 {
        ghost var c := |KidsOf(to, its[..k])|;
        if MergeFragments(d0, frs[..c + 1]).Error? {
          ErrorStays(d0, frs, c + 1);
        }
        return;
      }
      KidsStep(to, its, k);
      fragment := NextKid(fdto, fragment, [], k);
      k := k + 1 + KidIdx(its[k + 1..], Any);
    }
    assert its[..k] == its;
    return 0;
  }

  lemma NoFragments(d: DT)
    ensures MergeFragments(d, []) == Merged.Tree(d) && FragmentsNeed([]) == 0
  {
  }

  /** Child k of the items among the fragments. */
  lemma FragmentAt(t: bytes, its: seq<Item>, k: nat)
    requires k < |its| && its[k].Node?
    ensures |KidsOf(t, its[..k])| < |KidsOf(t, its)| && KidsOf(t, its)[|KidsOf(t, its[..k])|] == Mean(t, its[k])
    ensures KidsOf(t, its)[..|KidsOf(t, its[..k])|] == KidsOf(t, its[..k])
    ensures KidsOf(t, its)[..|KidsOf(t, its[..k])| + 1] == KidsOf(t, its[..k]) + [Mean(t, its[k])]
  {
    KidsSplit(t, its, k);
    assert KidsOf(t, [its[k]]) == [Mean(t, its[k])];
  }
}
