/**
  fdt_overlay.c: the references to the shifted phandles follow them
  (overlay_update_local_node_references, overlay_update_local_references).
 */
module References {
  import opened Wrappers
  import opened Bytes
  import opened Tokens
  import opened Tree
  import opened Meaning
  import opened Blob
  import opened Scan
  import opened Walk
  import opened TreeWalk
  import opened Props
  import opened Effects
  import opened PropWrites
  import opened Merge
  import opened Overlay
  import opened OverlayTarget
  import opened AddNode
  import opened InPlace
  import opened Phandles

  // ------------------------------------------------------------------ what it does to a tree

  /** The word of v at off, raised by delta in 32 bits. */
  function Raised(v: bytes, off: nat, delta: nat): (r: bytes)
    requires off + 4 <= |v|
    ensures |r| == |v|
  {
    Written(v, off, BE32((U32(v, off) + delta) % TWO32))
  }

  /** Value v with the words at the first n offsets listed in fx raised; an error if one does not fit. */
  function PatchWords(v: bytes, fx: bytes, n: nat, delta: nat): (r: Outcome<bytes>)
    requires 4 * n <= |fx|
    ensures r.Fine? ==> |r.value| == |v|
    ensures r.Bad? ==> r.err == FDT_ERR_BADOVERLAY || r.err == STRAY
  {
    if n == 0 then Fine(v)
    else
      match PatchWords(v, fx, n - 1, delta)
      case Bad(e) => Bad(e)
      case Fine(w) =>
        var off := U32(fx, 4 * (n - 1));
        if off + 4 <= |w| then Fine(Raised(w, off, delta)) else Bad(if TooLong(|w|, 4, off) then FDT_ERR_BADOVERLAY else STRAY)
  }

  function PatchProp(ps: seq<DProp>, x: DProp, delta: nat): (r: Outcome<seq<DProp>>)
    ensures r.Bad? ==> r.err == FDT_ERR_BADOVERLAY || r.err == STRAY
  {
    if |x.value| % 4 != 0 || Lookup(ps, x.name).None? then Bad(FDT_ERR_BADOVERLAY)
    else
      match PatchWords(Lookup(ps, x.name).value, x.value, |x.value| / 4, delta)
      case Bad(e) => Bad(e)
      case Fine(w) => Fine(SetP(ps, x.name, w))
  }

  function PatchProps(ps: seq<DProp>, xs: seq<DProp>, delta: nat): (r: Outcome<seq<DProp>>)
    ensures r.Bad? ==> r.err == FDT_ERR_BADOVERLAY || r.err == STRAY
    decreases |xs|
  {
    if xs == [] then Fine(ps)
    else
      var r := PatchProp(ps, xs[0], delta);
      if r.Bad? then r else PatchProps(r.value, xs[1..], delta)
  }

  /** Subtree d with the references listed by the fixups x raised; an error if x does not fit d. */
  function PatchTree(d: DT, x: DT, delta: nat): (r: Outcome<DT>)
    ensures r.Bad? ==> r.err == FDT_ERR_BADOVERLAY || r.err == STRAY
    decreases x, 1
  {
    match PatchProps(d.props, x.props, delta)
    case Bad(e) => Bad(e)
    case Fine(ps) =>
      match PatchKids(d.kids, x.kids, delta)
      case Bad(e) => Bad(e)
      case Fine(ks) => Fine(DT(d.name, ps, ks))
  }

  function PatchKids(ks: seq<DT>, xs: seq<DT>, delta: nat): (r: Outcome<seq<DT>>)
    ensures r.Bad? ==> r.err == FDT_ERR_BADOVERLAY || r.err == STRAY
    decreases xs, 0
  {
    if xs == [] then Fine(ks)
    else
      var c := FindKidD(ks, xs[0].name);
      if c == |ks| then Bad(FDT_ERR_BADOVERLAY)
      else
        match PatchTree(ks[c], xs[0], delta)
        case Bad(e) => Bad(e)
        case Fine(y) => PatchKids(ks[c := y], xs[1..], delta)
  }

  // ------------------------------------------------------------------ the reach of an offset

  /** The listed offsets leave room for a word in 32 bits. */
  ghost predicate WordsFit(fx: bytes) {
    forall i: nat :: 4 * i + 4 <= |fx| ==> U32(fx, 4 * i) + 4 < TWO32
  }

  /** Fixups whose offsets leave room for a word in 32 bits. */
  ghost predicate RefsFit(x: DT)
    decreases x
  {
    (forall i :: 0 <= i < |x.props| ==> WordsFit(x.props[i].value)) && forall i :: 0 <= i < |x.kids| ==> RefsFit(x.kids[i])
  }

  /** Then no store goes astray: an offset that does not fit is refused. */
  lemma {:induction false} NeverStray(d: DT, x: DT, delta: nat)
    requires RefsFit(x)
    ensures PatchTree(d, x, delta) != Bad(STRAY)
    decreases x, 1
  {
    hide WordsFit;
    PropsNeverStray(d.props, x.props, delta);
    KidsNeverStray(d.kids, x.kids, delta);
  }

  lemma {:induction false} KidsNeverStray(ks: seq<DT>, xs: seq<DT>, delta: nat)
    requires forall i :: 0 <= i < |xs| ==> RefsFit(xs[i])
    ensures PatchKids(ks, xs, delta) != Bad(STRAY)
    decreases xs, 0
  {
    hide RefsFit, FindKidD;
    if xs != [] {
      var c := FindKidD(ks, xs[0].name);
      if c < |ks| {
        NeverStray(ks[c], xs[0], delta);
        if PatchTree(ks[c], xs[0], delta).Fine? {
          KidsNeverStray(ks[c := PatchTree(ks[c], xs[0], delta).value], xs[1..], delta);
        }
      }
    }
  }

  lemma {:induction false} PropsNeverStray(ps: seq<DProp>, xs: seq<DProp>, delta: nat)
    requires forall i :: 0 <= i < |xs| ==> WordsFit(xs[i].value)
    ensures PatchProps(ps, xs, delta) != Bad(STRAY)
    decreases |xs|
  {
    hide WordsFit, PatchWords;
    if xs != [] {
      var v := Lookup(ps, xs[0].name);
      if v.Some? {
        WordsNeverStray(v.value, xs[0].value, |xs[0].value| / 4, delta);
      }
      if PatchProp(ps, xs[0], delta).Fine? {
        PropsNeverStray(PatchProp(ps, xs[0], delta).value, xs[1..], delta);
      }
    }
  }

  lemma {:induction false} WordsNeverStray(v: bytes, fx: bytes, n: nat, delta: nat)
    requires 4 * n <= |fx| && WordsFit(fx)
    ensures PatchWords(v, fx, n, delta) != Bad(STRAY)
    decreases n
  {
    hide Raised, U32;
    if n > 0 {
      WordsNeverStray(v, fx, n - 1, delta);
      assert 4 * (n - 1) + 4 <= |fx|;
    }
  }

  /** One listed offset of 0xffff_fffc is enough to write outside, whatever the value. */
  lemma StrayWord(v: bytes, delta: nat)
    requires |v| < 0x8000_0000
    ensures PatchWords(v, BE32(0xffff_fffc), 1, delta) == Bad(STRAY)
  {
    hide Raised;
    BE32RoundTrip(0xffff_fffc);
    TooLongMissed(|v|);
    assert PatchWords(v, BE32(0xffff_fffc), 0, delta) == Fine(v);
  }

  // ------------------------------------------------------------------ what it is for

  lemma RaisedWord(v: bytes, off: nat, delta: nat)
    requires off + 4 <= |v|
    ensures U32(Raised(v, off, delta), off) == (U32(v, off) + delta) % TWO32
    ensures forall o: nat :: o + 4 <= |v| && (o + 4 <= off || off + 4 <= o) ==> U32(Raised(v, off, delta), o) == U32(v, o)
  {
    hide BE32;
    var x := (U32(v, off) + delta) % TWO32;
    WrittenHolds(v, off, BE32(x));
    U32Of(Raised(v, off, delta), off, x);
  }

  /** Offsets that do not overlap. */
  predicate Spread(fx: bytes, n: nat)
    requires 4 * n <= |fx|
  {
    forall i, j :: 0 <= i < j < n ==> U32(fx, 4 * i) + 4 <= U32(fx, 4 * j) || U32(fx, 4 * j) + 4 <= U32(fx, 4 * i)
  }

  /** Every listed word is raised once, so a reference to a phandle of the overlay follows it. */
  lemma {:induction false} RefFollows(v: bytes, fx: bytes, n: nat, delta: nat, i: nat)
    requires 4 * n <= |fx| && PatchWords(v, fx, n, delta).Fine? && Spread(fx, n) && i < n
    ensures U32(fx, 4 * i) + 4 <= |v|
    ensures U32(PatchWords(v, fx, n, delta).value, U32(fx, 4 * i)) == (U32(v, U32(fx, 4 * i)) + delta) % TWO32
    decreases n
  {
    hide Raised, U32;
    var w, off := PatchWords(v, fx, n - 1, delta).value, U32(fx, 4 * (n - 1));
    RaisedWord(w, off, delta);
    if i < n - 1 {
      RefFollows(v, fx, n - 1, delta, i);
    } else {
      WordKept(v, fx, n - 1, delta, off);
    }
  }

  /** A word that none of the offsets touches stays. */
  lemma {:induction false} WordKept(v: bytes, fx: bytes, n: nat, delta: nat, o: nat)
    requires 4 * n <= |fx| && PatchWords(v, fx, n, delta).Fine? && o + 4 <= |v|
    requires forall i :: 0 <= i < n ==> U32(fx, 4 * i) + 4 <= o || o + 4 <= U32(fx, 4 * i)
    ensures U32(PatchWords(v, fx, n, delta).value, o) == U32(v, o)
    decreases n
  {
    hide Raised, U32;
    if n > 0 {
      WordKept(v, fx, n - 1, delta, o);
      RaisedWord(PatchWords(v, fx, n - 1, delta).value, U32(fx, 4 * (n - 1)), delta);
    }
  }

  // ------------------------------------------------------------------ one property

  /** Edits of the node at p leave the node at q alone. */
  predicate Clear(p: seq<nat>, q: seq<nat>) {
    q != [] && (p == [] || p[0] != q[0])
  }

  lemma ClearKept(r: Item, r': Item, p: seq<nat>, q: seq<nat>)
    requires Clear(p, q) && IsPath(r, p) && IsPath(r, q) && IsPath(r', p)
    requires r' == Put(r, p, At(r', p)) && SameNodes(At(r, p).items, At(r', p).items)
    ensures IsPath(r', q) && At(r', q) == At(r, q) && Kept(r, r', q)
  {
  }

  /** The child of the root that node q is in is as it was. */
  predicate Kept(r: Item, r': Item, q: seq<nat>) {
    r.Node? && r'.Node? && q != [] && q[0] < |r.items| && q[0] < |r'.items| && r'.items[q[0]] == r.items[q[0]]
  }

  lemma KeptSelf(r: Item, q: seq<nat>)
    requires IsPath(r, q) && q != []
    ensures Kept(r, r, q)
  {
  }

  lemma KeptAt(r: Item, r': Item, q: seq<nat>)
    requires Kept(r, r', q) && IsPath(r, q)
    ensures IsPath(r', q) && At(r', q) == At(r, q)
  {
  }

  lemma SetTwice(ps: seq<DProp>, name: bytes, v: bytes, w: bytes)
    ensures SetP(SetP(ps, name, v), name, w) == SetP(ps, name, w) && Lookup(SetP(ps, name, v), name) == Some(v)
    ensures Lookup(ps, name) == Some(v) ==> SetP(ps, name, v) == ps
  {
    SetLookup(ps, name, v, name);
    var i := FindD(ps, name);
    FindDIs(SetP(ps, name, v), name, if i < |ps| then i else 0);
  }

  lemma {:induction false} ShapeFindP(t: bytes, a: seq<Item>, b: seq<Item>, name: bytes)
    requires SameShapes(a, b)
    ensures FindP(t, a, name) == FindP(t, b, name)
  {
    hide StrAt;
    if a != [] {
      assert SameShape(a[0], b[0]);
      ShapeFindP(t, a[1..], b[1..], name);
    }
  }

  /** While property x, item j of the fixups node at q, is followed in the node at p, whose property name now has value w. */
  ghost predicate Following(r0: Item, t0: bytes, f: Fdt, p: seq<nat>, q: seq<nat>, d: DT, name: bytes, w: bytes, n: Item)
    reads f, f.mem
  {
    && Merging(r0, t0, f, f.rsv, p, d.(props := SetP(d.props, name, w))) && IsPath(f.root, p)
    && IsPath(f.root, q) && At(f.root, q) == n && Clear(p, q)
  }

  lemma ValueHere(f: Fdt, p: seq<nat>, k: nat)
    requires f.Valid() && IsPath(f.root, p) && k < |At(f.root, p).items| && At(f.root, p).items[k].Prop?
    ensures var v := At(f.root, p).items[k].value; ValueAt(f, p, k) + |v| <= f.mem.Length && f.mem[ValueAt(f, p, k)..ValueAt(f, p, k) + |v|] == v
  {
    hide StringsOf, Wf, At, ItemOff, Load, Scannable, Laid, Probed, Terminated, Off, Block, ItemPos;
    PropHere(f, p, k);
  }

  lemma WordWithin(mem: array<byte>, at: nat, v: bytes, off: nat)
    requires at + |v| <= mem.Length && mem[at..at + |v|] == v && off + 4 <= |v|
    ensures Load(mem, at + off) == U32(v, off)
  {
    var m := mem[at..at + |v|];
    assert m[off] == mem[at + off] && m[off + 1] == mem[at + off + 1] && m[off + 2] == mem[at + off + 2] && m[off + 3] == mem[at + off + 3];
  }

  /** The body of the loop over the words of one property. */
  method UpdateWord(f: Fdt, node: nat, name: bytes, fixupAt: nat, treeAt: nat, delta: nat, ghost i: nat, ghost j: nat, ghost k: nat,
                    ghost p: seq<nat>, ghost q: seq<nat>, ghost r0: Item, ghost t0: bytes, ghost d: DT, ghost w: bytes, ghost n: Item)
      returns (ret: int)
    requires Following(r0, t0, f, p, q, d, name, w, n) && node == NodeOff(r0, p) && NoNul(name) && delta < TWO32
    requires n.Node? && j < |n.items| && n.items[j].Prop? && 4 * i + 4 <= |n.items[j].value|
    requires IsPath(f.root, q) && j <= |At(f.root, q).items| && fixupAt == ValueAt(f, q, j) + 4 * i
    requires IsPath(f.root, p) && k == FindP(f.Strings(), At(f.root, p).items, name) && k < |At(f.root, p).items| && treeAt == ValueAt(f, p, k)
    modifies f`root, f.mem
    ensures f.Valid() && f.Strings() == old(f.Strings()) && SameShape(old(f.root), f.root) && Kept(old(f.root), f.root, q)
    ensures var off := U32(n.items[j].value, 4 * i);
      if off + 4 <= |w| then ret == 0 && Following(r0, t0, f, p, q, d, name, Raised(w, off, delta), n)
      else ret == -(if TooLong(|w|, 4, off) then FDT_ERR_BADOVERLAY else STRAY)
  {
    hide StringsOf, Wf, At, Put, IsPath, SameShape, PropsOf, KidsOf, SetP, ItemOff, NodeOff, Edited, NodeBecame, Lookup, FindP, U32, Load, BE32, Terminated, Merging;
    ghost var r1, t1, e := f.root, f.Strings(), d.(props := SetP(d.props, name, w));
    MergingFacts(r0, t0, f, p, e);
    SetTwice(d.props, name, w, w);
    ValueHere(f, q, j);
    WordWithin(f.mem, ValueAt(f, q, j), n.items[j].value, 4 * i);
    var poffset := Load(f.mem, fixupAt);
    ValueHere(f, p, k);
    PropValue(t1, At(r1, p).items, name);
    var adjVal := 0;
    if treeAt + poffset + 4 <= f.mem.Length {
      adjVal := Load(f.mem, treeAt + poffset);
      if poffset + 4 <= |w| {
        WordWithin(f.mem, treeAt, w, poffset);
      }
    }
    ret := SetPropInPlacePartial(f, node, name, poffset, BE32((adjVal + delta) % TWO32), p);
    ClearKept(r1, f.root, p, q);
    if ret == -FDT_ERR_NOSPACE { return -FDT_ERR_BADOVERLAY; }
    if ret != 0 { return; }
    ghost var w' := Raised(w, poffset, delta);
    SetTwice(d.props, name, w, w');
    MergingStep(r0, t0, r1, t1, f, f.rsv, p, d.(props := SetP(d.props, name, w')));
    MergingFacts(r0, t0, f, p, d.(props := SetP(d.props, name, w')));
  }

  lemma {:induction false} WordsFail(v: bytes, fx: bytes, i: nat, n: nat, delta: nat)
    requires i <= n && 4 * n <= |fx| && PatchWords(v, fx, i, delta).Bad?
    ensures PatchWords(v, fx, n, delta) == PatchWords(v, fx, i, delta)
    decreases n
  {
    hide Raised;
    if i < n {
      WordsFail(v, fx, i, n - 1, delta);
    }
  }

  /** Where the values are, once the tree has changed to one of the same shape. */
  lemma SamePlaces(r: Item, t: bytes, f: Fdt, p: seq<nat>, k: nat, q: seq<nat>, j: nat, name: bytes)
    requires SameShape(r, f.root) && IsPath(r, p) && IsPath(r, q) && k <= |At(r, p).items| && j <= |At(r, q).items|
    ensures IsPath(f.root, p) && k <= |At(f.root, p).items| && ItemOff(f.root, p, k) == ItemOff(r, p, k)
    ensures IsPath(f.root, q) && j <= |At(f.root, q).items| && ItemOff(f.root, q, j) == ItemOff(r, q, j)
    ensures FindP(t, At(f.root, p).items, name) == FindP(t, At(r, p).items, name) && |At(f.root, p).items| == |At(r, p).items|
  {
    hide SameShape, ItemOff, FindP;
    ShapeItem(r, f.root, p, k);
    ShapeItem(r, f.root, q, j);
    ShapeAt(r, f.root, p);
    KindKept(At(r, p), At(f.root, p));
    ShapeFindP(t, At(r, p).items, At(f.root, p).items, name);
  }

  /** The loop over the words of one property, fx being item j of the fixups node n. */
  method UpdateWords(f: Fdt, node: nat, name: bytes, fixupAt: nat, treeAt: nat, count: nat, delta: nat, ghost j: nat, ghost k: nat,
                     ghost p: seq<nat>, ghost q: seq<nat>, ghost r0: Item, ghost t0: bytes, ghost d: DT, ghost v: bytes, ghost n: Item)
      returns (ret: int)
    requires Following(r0, t0, f, p, q, d, name, v, n) && node == NodeOff(r0, p) && NoNul(name) && delta < TWO32
    requires n.Node? && j < |n.items| && n.items[j].Prop? && 4 * count <= |n.items[j].value|
    requires IsPath(f.root, q) && j <= |At(f.root, q).items| && fixupAt == ValueAt(f, q, j)
    requires IsPath(f.root, p) && k == FindP(f.Strings(), At(f.root, p).items, name) && k < |At(f.root, p).items| && treeAt == ValueAt(f, p, k)
    modifies f`root, f.mem
    ensures f.Valid() && f.Strings() == old(f.Strings()) && SameShape(old(f.root), f.root) && Kept(old(f.root), f.root, q)
    ensures match PatchWords(v, n.items[j].value, count, delta)
      case Bad(e) => ret == -e
      case Fine(w) => ret == 0 && Following(r0, t0, f, p, q, d, name, w, n)
  {
    hide StringsOf, Wf, At, Put, IsPath, SameShape, SetP, ItemOff, NodeOff, Lookup, FindP, U32, Load, Following, Raised;
    ghost var r1, t1, w, fx := f.root, f.Strings(), v, n.items[j].value;
    ShapeRefl(r1);
    FollowingFacts(r0, t0, f, p, q, d, name, w, n);
    for i := 0 to count
      invariant f.Valid() && f.Strings() == t1 && SameShape(r1, f.root) && Kept(r1, f.root, q)
      invariant PatchWords(v, fx, i, delta) == Fine(w) && Following(r0, t0, f, p, q, d, name, w, n)
    {
      ghost var r2 := f.root;
      SamePlaces(r1, t1, f, p, k, q, j, name);
      ret := UpdateWord(f, node, name, fixupAt + 4 * i, treeAt, delta, i, j, k, p, q, r0, t0, d, w, n);
      ShapeTrans(r1, r2, f.root);
      if ret != 0 {
        WordsFail(v, fx, i + 1, count, delta);
        return;
      }
      w := Raised(w, U32(fx, 4 * i), delta);
    }
    return 0;
  }

  lemma FollowingFacts(r0: Item, t0: bytes, f: Fdt, p: seq<nat>, q: seq<nat>, d: DT, name: bytes, w: bytes, n: Item)
    requires Following(r0, t0, f, p, q, d, name, w, n)
    ensures f.Valid() && IsPath(f.root, p) && IsPath(f.root, q) && At(f.root, q) == n && Kept(f.root, f.root, q)
  {
    MergingFacts(r0, t0, f, p, d.(props := SetP(d.props, name, w)));
  }

  /** What a property of the fixups node says. */
  function FixupOf(t: bytes, it: Item): DProp
    requires it.Prop?
  {
    DProp(StrAt(t, it.nameoff), it.value)
  }

  /** One property of the fixups node: the body of the first loop. */
  method UpdateProp(f: Fdt, node: nat, fixup: nat, delta: nat, ghost j: nat, ghost p: seq<nat>, ghost q: seq<nat>,
                    ghost r0: Item, ghost t0: bytes, ghost d: DT, ghost n: Item) returns (ret: int)
    requires Merging(r0, t0, f, f.rsv, p, d) && node == NodeOff(r0, p) && delta < TWO32 && Clear(p, q)
    requires f.Valid() && IsPath(f.root, q) && At(f.root, q) == n && j < |n.items| && n.items[j].Prop?
    requires fixup == ItemOff(f.root, q, j)
    modifies f`root, f.mem
    ensures f.Valid() && f.Strings() == old(f.Strings()) && SameShape(old(f.root), f.root) && Kept(old(f.root), f.root, q)
    ensures match PatchProp(d.props, FixupOf(f.Strings(), n.items[j]), delta)
      case Bad(e) => ret == -e
      case Fine(ps) => ret == 0 && Merging(r0, t0, f, f.rsv, p, d.(props := ps)) && IsPath(f.root, q) && At(f.root, q) == n
  {
    hide StringsOf, Wf, Put, IsPath, SameShape, PropsOf, KidsOf, SetP, ItemOff, NodeOff, Edited, Lookup, FindP, U32, StrAt, PatchWords, Merging;
    MergingFacts(r0, t0, f, p, d);
    ShapeRefl(f.root);
    KeptSelf(f.root, q);
    ghost var t, x := f.Strings(), FixupOf(f.Strings(), n.items[j]);
    var fixupAt, name, fixupLen := GetPropByOffset(f, fixup, q, j);
    if fixupLen % 4 != 0 { return -FDT_ERR_BADOVERLAY; }
    PropValue(t, At(f.root, p).items, name);
    var treeAt, treeLen := GetProp(f, node, name, p);
    if treeLen < 0 {
      return if treeLen == -FDT_ERR_NOTFOUND then -FDT_ERR_BADOVERLAY else treeLen;
    }
    ghost var k, v := FindP(t, At(f.root, p).items, name), Lookup(d.props, name).value;
    SetTwice(d.props, name, v, v);
    ret := UpdateWords(f, node, name, fixupAt, treeAt, fixupLen / 4, delta, j, k, p, q, r0, t0, d, v, n);
    if ret == 0 {
      FollowingFacts(r0, t0, f, p, q, d, name, PatchWords(v, x.value, |x.value| / 4, delta).value, n);
    }
  }

  // ------------------------------------------------------------------ all properties of a node

  /** The properties from the first one at or after item k on. */
  lemma {:induction false} PropsFrom(t: bytes, its: seq<Item>, k: nat)
    requires PropsFirst(its) && k <= |its|
    ensures PropsOf(t, its[k..]) == PropsOf(t, its[NextPropIdx(its, k)..])
    decreases |its| - k
  {
    hide StrAt;
    if k < |its| {
      assert its[k..][0] == its[k] && its[k..][1..] == its[k + 1..];
      if its[k].Nop? {
        PropsFrom(t, its, k + 1);
      } else if its[k].Node? {
        NoProps(t, its[k..]);
        assert its[|its|..] == [];
      }
    }
  }

  lemma PropHead(t: bytes, its: seq<Item>, k: nat)
    requires PropsFirst(its) && k < |its| && its[k].Prop?
    ensures PropsOf(t, its[k..]) == [FixupOf(t, its[k])] + PropsOf(t, its[NextPropIdx(its, k + 1)..])
  {
    hide StrAt;
    PropsFrom(t, its, k + 1);
    assert its[k..][0] == its[k] && its[k..][1..] == its[k + 1..];
  }

  lemma PatchStep(ps: seq<DProp>, x: DProp, xs: seq<DProp>, delta: nat)
    ensures PatchProps(ps, [x] + xs, delta) == if PatchProp(ps, x, delta).Bad? then PatchProp(ps, x, delta) else PatchProps(PatchProp(ps, x, delta).value, xs, delta)
    ensures PatchProps(ps, [], delta) == Fine(ps)
  {
    hide PatchProp;
    assert ([x] + xs)[1..] == xs;
  }

  /** The first loop of overlay_update_local_node_references. */
  method UpdateProps(f: Fdt, node: nat, fixupNode: nat, delta: nat, ghost p: seq<nat>, ghost q: seq<nat>,
                     ghost r0: Item, ghost t0: bytes, ghost d: DT) returns (ret: int)
    requires Merging(r0, t0, f, f.rsv, p, d) && node == NodeOff(r0, p) && delta < TWO32 && Clear(p, q)
    requires f.Valid() && IsPath(f.root, q) && fixupNode == NodeOff(f.root, q)
    modifies f`root, f.mem
    ensures f.Valid() && f.Strings() == old(f.Strings()) && SameShape(old(f.root), f.root) && Kept(old(f.root), f.root, q)
    ensures match PatchProps(d.props, old(Mean(f.Strings(), At(f.root, q))).props, delta)
      case Bad(e) => ret == -e
      case Fine(ps) => ret == 0 && Merging(r0, t0, f, f.rsv, p, d.(props := ps))
  {
    hide StringsOf, Wf, Put, IsPath, SameShape, PropsOf, KidsOf, ItemOff, NodeOff, StrAt, PatchProp, PatchProps, Merging, At, Kept, NextPropIdx, OkItem, PropsFirst, FixupOf;
    ghost var r1, t, n, ps := f.root, f.Strings(), At(f.root, q), d.props;
    NodeFacts(f, q);
    ShapeRefl(r1);
    KeptSelf(r1, q);
    ghost var j := NextPropIdx(n.items, 0);
    PropsFrom(t, n.items, 0);
    assert n.items[0..] == n.items;
    assert d.(props := ps) == d;
    var fixup := FirstPropertyOffset(f, fixupNode, q);
    while fixup >= 0
      invariant f.Valid() && f.Strings() == t && SameShape(r1, f.root) && Kept(r1, f.root, q) && IsPath(f.root, q) && At(f.root, q) == n
      invariant Merging(r0, t0, f, f.rsv, p, d.(props := ps))
      invariant j <= |n.items| && (j < |n.items| ==> n.items[j].Prop?) && fixup == if j < |n.items| then ItemOff(f.root, q, j) else -FDT_ERR_NOTFOUND
      invariant PatchProps(d.props, PropsOf(t, n.items), delta) == PatchProps(ps, PropsOf(t, n.items[j..]), delta)
      decreases |n.items| - j
    {
      ghost var r2, x := f.root, FixupOf(t, n.items[j]);
      PropHead(t, n.items, j);
      PatchStep(ps, x, PropsOf(t, n.items[NextPropIdx(n.items, j + 1)..]), delta);
      ret := UpdateProp(f, node, fixup, delta, j, p, q, r0, t0, d.(props := ps), n);
      ShapeTrans(r1, r2, f.root);
      KeptTrans(r1, r2, f.root, q);
      if ret != 0 { return; }
      ps := PatchProp(ps, x, delta).value;
      ShapeItem(r2, f.root, q, j);
      fixup := NextPropertyOffset(f, fixup, q, j);
      j := NextPropIdx(n.items, j + 1);
    }
    assert n.items[j..] == [];
    NoPropItems(t);
    PatchStep(ps, DProp([], []), [], delta);
    return 0;
  }

  lemma KeptTrans(r: Item, r1: Item, r2: Item, q: seq<nat>)
    requires Kept(r, r1, q) && Kept(r1, r2, q)
    ensures Kept(r, r2, q)
  {
  }

  // ------------------------------------------------------------------ all nodes

  /** No child of the fixups x selects, below the root, the child of the root they are in. */
  ghost predicate Elsewhere(root: Item, p: seq<nat>, q: seq<nat>, x: DT) {
    root.Node? && q != [] && (p == [] ==> forall i :: 0 <= i < |x.kids| ==> KidIdx(root.items, Named(x.kids[i].name)) != q[0])
  }

  lemma ElsewhereKept(r: Item, r': Item, p: seq<nat>, q: seq<nat>, x: DT)
    requires Elsewhere(r, p, q, x) && SameShape(r, r')
    ensures Elsewhere(r', p, q, x)
  {
    hide SameShape, Matches;
    KindKept(r, r');
    forall i | 0 <= i < |x.kids| && p == []
      ensures KidIdx(r'.items, Named(x.kids[i].name)) == KidIdx(r.items, Named(x.kids[i].name))
    {
      ShapeKid(r.items, r'.items, Named(x.kids[i].name));
    }
  }

  /** The child of the tree node that a child of the fixups node is about. */
  method FixupTarget(f: Fdt, node: nat, fixupChild: nat, ghost p: seq<nat>, ghost q: seq<nat>, ghost k: nat) returns (r: int)
    requires f.Valid() && IsPath(f.root, p) && node == NodeOff(f.root, p)
    requires IsPath(f.root, q) && k < |At(f.root, q).items| && At(f.root, q).items[k].Node? && fixupChild == ItemOff(f.root, q, k)
    ensures var its := At(f.root, p).items; var c := KidIdx(its, Named(At(f.root, q).items[k].name));
      if c < |its| then IsPath(f.root, p + [c]) && r == NodeOff(f.root, p + [c]) else r == -FDT_ERR_NOTFOUND
  {
    hide StringsOf, Wf, IsPath, ItemOff, NodeOff, Flat, FlatS, Block, Enc, Matches, Scannable, Off, Occurs, OkItem, Probed, Closed, Laid;
    var name := KidName(f, fixupChild, q, k);
    r := SubnodeOffset(f, node, name, p);
  }

  /** One child of the fixups node: the body of the second loop. */
  method UpdateKid(f: Fdt, node: nat, fixupChild: nat, delta: nat, ghost k: nat, ghost p: seq<nat>, ghost q: seq<nat>,
                   ghost r0: Item, ghost t0: bytes, ghost d: DT) returns (ret: int)
    requires Merging(r0, t0, f, f.rsv, p, d) && node == NodeOff(r0, p) && delta < TWO32 && Clear(p, q)
    requires f.Valid() && IsPath(f.root, q) && k < |At(f.root, q).items| && At(f.root, q).items[k].Node? && fixupChild == ItemOff(f.root, q, k)
    requires p == [] ==> f.root.Node? && KidIdx(f.root.items, Named(At(f.root, q).items[k].name)) != q[0]
    modifies f`root, f.mem
    ensures f.Valid() && f.Strings() == old(f.Strings()) && SameShape(old(f.root), f.root) && Kept(old(f.root), f.root, q)
    ensures var x := old(Mean(f.Strings(), At(f.root, q).items[k])); var c := FindKidD(d.kids, x.name);
      if c == |d.kids| then ret == -FDT_ERR_BADOVERLAY
      else match PatchTree(d.kids[c], x, delta)
        case Bad(e) => ret == -e
        case Fine(y) => ret == 0 && Merging(r0, t0, f, f.rsv, p, d.(kids := d.kids[c := y]))
    decreases |Flat(At(f.root, q))|, 1
  {
    hide StringsOf, Wf, Put, IsPath, SameShape, PropsOf, KidsOf, ItemOff, NodeOff, Merging, Flat, FlatS, Block, Enc, PatchTree, Edited, Matches, Scannable, Off, Occurs, OkItem, Probed, Closed, Laid, FindKidD;
    ghost var r1, t, n := f.root, f.Strings(), At(f.root, q);
    MergingFacts(r0, t0, f, p, d);
    ShapeRefl(r1);
    KeptSelf(r1, q);
    var treeChild := FixupTarget(f, node, fixupChild, p, q, k);
    ghost var c := KidIdx(At(r1, p).items, Named(n.items[k].name));
    KidBoth(t, At(r1, p).items, n.items[k].name);
    if treeChild == -FDT_ERR_NOTFOUND { return -FDT_ERR_BADOVERLAY; }
    if treeChild < 0 { return treeChild; }
    KidPath(r1, p, c);
    KidPath(r1, q, k);
    MergingStart(f, p + [c]);
    SmallerKid(n, k);
    StillClear(p, q, c, k);
    ghost var e := Mean(t, At(r1, p + [c]));
    MergingUp(r0, t0, r1, t, f, f.rsv, p, c, e);
    ret := UpdateNode(f, treeChild, fixupChild, delta, p + [c], q + [k], r1, t, e);
    if ret == 0 {
      MergingUp(r0, t0, r1, t, f, f.rsv, p, c, PatchTree(e, Mean(t, n.items[k]), delta).value);
    }
  }

  lemma StillClear(p: seq<nat>, q: seq<nat>, c: nat, k: nat)
    requires Clear(p, q) && (p == [] ==> c != q[0])
    ensures Clear(p + [c], q + [k]) && (q + [k])[0] == q[0]
  {
  }

  lemma AnyMatches(name: bytes)
    ensures Matches(name, Any)
  {
  }

  lemma NotAKid(t: bytes, its: seq<Item>)
    requires its != [] && !its[0].Node?
    ensures KidsOf(t, its) == KidsOf(t, its[1..])
  {
  }

  /** The children from the first one at or after item k on. */
  lemma {:induction false} KidsFrom(t: bytes, its: seq<Item>, k: nat)
    requires k <= |its|
    ensures KidsOf(t, its[k..]) == KidsOf(t, its[k + KidIdx(its[k..], Any)..])
    decreases |its| - k
  {
    hide Mean, KidsOf, KidIdx, Matches;
    if k < |its| {
      assert its[k..][0] == its[k] && its[k..][1..] == its[k + 1..];
      KidIdxStep(its[k..], Any);
      if its[k].Node? {
        assert Matches(its[k].name, Any) by { AnyMatches(its[k].name); }
      } else {
        NotAKid(t, its[k..]);
        KidsFrom(t, its, k + 1);
      }
    } else {
      KidIdxStep(its[k..], Any);
    }
  }

  lemma KidHead(t: bytes, its: seq<Item>, k: nat)
    requires k < |its| && its[k].Node?
    ensures KidsOf(t, its[k..]) == [Mean(t, its[k])] + KidsOf(t, its[k + 1 + KidIdx(its[k + 1..], Any)..])
  {
    hide Mean;
    KidsFrom(t, its, k + 1);
    assert its[k..][0] == its[k] && its[k..][1..] == its[k + 1..];
  }

  lemma PatchKidStep(ks: seq<DT>, x: DT, xs: seq<DT>, delta: nat)
    ensures PatchKids(ks, [x] + xs, delta) ==
      var c := FindKidD(ks, x.name);
      if c == |ks| then Bad(FDT_ERR_BADOVERLAY)
      else match PatchTree(ks[c], x, delta) case Bad(e) => Bad(e) case Fine(y) => PatchKids(ks[c := y], xs, delta)
    ensures PatchKids(ks, [], delta) == Fine(ks)
  {
    hide PatchTree;
    assert ([x] + xs)[1..] == xs;
  }

  /** The second loop. */
  method UpdateKids(f: Fdt, node: nat, fixupNode: nat, delta: nat, ghost p: seq<nat>, ghost q: seq<nat>,
                    ghost r0: Item, ghost t0: bytes, ghost d: DT) returns (ret: int)
    requires Merging(r0, t0, f, f.rsv, p, d) && node == NodeOff(r0, p) && delta < TWO32 && Clear(p, q)
    requires f.Valid() && IsPath(f.root, q) && fixupNode == NodeOff(f.root, q)
    requires Elsewhere(f.root, p, q, Mean(f.Strings(), At(f.root, q)))
    modifies f`root, f.mem
    ensures f.Valid() && f.Strings() == old(f.Strings()) && SameShape(old(f.root), f.root) && Kept(old(f.root), f.root, q)
    ensures match PatchKids(d.kids, old(Mean(f.Strings(), At(f.root, q))).kids, delta)
      case Bad(e) => ret == -e
      case Fine(ks) => ret == 0 && Merging(r0, t0, f, f.rsv, p, d.(kids := ks))
    decreases |Flat(At(f.root, q))|, 2
  {
    hide StringsOf, Wf, Put, IsPath, SameShape, PropsOf, KidsOf, ItemOff, NodeOff, Merging, At, Kept, KidIdx, OkItem, PatchTree, PatchKids, FindKidD, Elsewhere, Flat;
    ghost var r1, t, n, ks := f.root, f.Strings(), At(f.root, q), d.kids;
    ShapeRefl(r1);
    KeptSelf(r1, q);
    ghost var k := KidIdx(n.items, Any);
    KidsFrom(t, n.items, 0);
    assert n.items[0..] == n.items;
    assert d.(kids := ks) == d;
    var fixupChild := FirstKid(f, fixupNode, q);
    while fixupChild >= 0
      invariant f.Valid() && f.Strings() == t && SameShape(r1, f.root) && Kept(r1, f.root, q) && IsPath(f.root, q) && At(f.root, q) == n
      invariant Merging(r0, t0, f, f.rsv, p, d.(kids := ks))
      invariant k <= |n.items| && (k < |n.items| ==> n.items[k].Node?) && fixupChild == if k < |n.items| then ItemOff(f.root, q, k) else -FDT_ERR_NOTFOUND
      invariant PatchKids(d.kids, KidsOf(t, n.items), delta) == PatchKids(ks, KidsOf(t, n.items[k..]), delta)
      decreases |n.items| - k
    {
      ghost var r2, x := f.root, Mean(t, n.items[k]);
      KidElsewhere(r1, r2, t, p, q, n, k);
      KidHead(t, n.items, k);
      PatchKidStep(ks, x, KidsOf(t, n.items[k + 1 + KidIdx(n.items[k + 1..], Any)..]), delta);
      ret := UpdateKid(f, node, fixupChild, delta, k, p, q, r0, t0, d.(kids := ks));
      ShapeTrans(r1, r2, f.root);
      KeptTrans(r1, r2, f.root, q);
      KeptAt(r2, f.root, q);
      if ret != 0 { return; }
      ks := ks[FindKidD(ks, x.name) := PatchTree(ks[FindKidD(ks, x.name)], x, delta).value];
      ShapeItem(r2, f.root, q, k);
      fixupChild := NextKid(f, fixupChild, q, k);
      k := k + 1 + KidIdx(n.items[k + 1..], Any);
    }
    assert n.items[k..] == [];
    NoKids(t, []);
    PatchKidStep(ks, DT([], [], []), [], delta);
    return 0;
  }

  lemma KidElsewhere(r: Item, r': Item, t: bytes, p: seq<nat>, q: seq<nat>, n: Item, k: nat)
    requires n.Node? && k < |n.items| && n.items[k].Node? && Elsewhere(r, p, q, Mean(t, n)) && SameShape(r, r')
    ensures p == [] ==> r'.Node? && q != [] && KidIdx(r'.items, Named(n.items[k].name)) != q[0]
  {
    hide SameShape, KidIdx;
    ElsewhereKept(r, r', p, q, Mean(t, n));
    MeanPutStep(t, n.items, k, n.items[k]);
  }

  /** overlay_update_local_node_references */
  method UpdateNode(f: Fdt, node: nat, fixupNode: nat, delta: nat, ghost p: seq<nat>, ghost q: seq<nat>,
                    ghost r0: Item, ghost t0: bytes, ghost d: DT) returns (ret: int)
    requires Merging(r0, t0, f, f.rsv, p, d) && node == NodeOff(r0, p) && delta < TWO32 && Clear(p, q)
    requires f.Valid() && IsPath(f.root, q) && fixupNode == NodeOff(f.root, q)
    requires Elsewhere(f.root, p, q, Mean(f.Strings(), At(f.root, q)))
    modifies f`root, f.mem
    ensures f.Valid() && f.Strings() == old(f.Strings()) && SameShape(old(f.root), f.root) && Kept(old(f.root), f.root, q)
    ensures match PatchTree(d, old(Mean(f.Strings(), At(f.root, q))), delta)
      case Bad(e) => ret == -e
      case Fine(e) => ret == 0 && Merging(r0, t0, f, f.rsv, p, e)
    decreases |Flat(At(f.root, q))|, 3
  {
    hide StringsOf, Wf, Put, IsPath, SameShape, NodeOff, Merging, At, Kept, PatchProps, PatchKids, Elsewhere, Flat, Clear, Mean;
    ghost var r1, x := f.root, Mean(f.Strings(), At(f.root, q));
    ret := UpdateProps(f, node, fixupNode, delta, p, q, r0, t0, d);
    if ret != 0 { return; }
    ghost var r2, ps := f.root, PatchProps(d.props, x.props, delta).value;
    KeptAt(r1, r2, q);
    ShapeAt(r1, r2, q);
    ElsewhereKept(r1, r2, p, q, x);
    ret := UpdateKids(f, node, fixupNode, delta, p, q, r0, t0, d.(props := ps));
    ShapeTrans(r1, r2, f.root);
    KeptTrans(r1, r2, f.root, q);
  }
}
