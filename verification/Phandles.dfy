/**
  fdt_overlay.c and fdt_ro.c: before an overlay is merged all its phandles are moved past the
  largest one of the base tree (fdt_find_max_phandle, overlay_adjust_local_phandles).
 */
module Phandles {
  import opened Wrappers
  import opened Bytes
  import opened Tokens
  import opened Tree
  import opened Meaning
  import opened Blob
  import opened Walk
  import opened TreeWalk
  import opened Props
  import opened Effects
  import opened PropWrites
  import opened Merge
  import opened Overlay
  import opened OverlayTarget
  import opened InPlace

  const FDT_ERR_NOPHANDLES: int := 17

  datatype Outcome<T> = Fine(value: T) | Bad(err: int)

  // ------------------------------------------------------------------ what the shift does to a tree

  function ShiftWord(v: bytes, delta: nat): (r: Outcome<bytes>)
    ensures r.Fine? ==> |v| == 4 && |r.value| == 4
    ensures r.Bad? ==> r.err == FDT_ERR_BADPHANDLE || r.err == FDT_ERR_NOPHANDLES
  {
    if |v| != 4 then Bad(FDT_ERR_BADPHANDLE)
    else
      var x := U32(v, 0);
      if (x + delta) % TWO32 < x || (x + delta) % TWO32 == NO_PHANDLE then Bad(FDT_ERR_NOPHANDLES) else Fine(BE32((x + delta) % TWO32))
  }

  function ShiftProp(ps: seq<DProp>, name: bytes, delta: nat): (r: Outcome<seq<DProp>>)
    ensures r.Bad? ==> r.err == FDT_ERR_BADPHANDLE || r.err == FDT_ERR_NOPHANDLES
  {
    match Lookup(ps, name)
    case None => Fine(ps)
    case Some(v) =>
      match ShiftWord(v, delta)
      case Bad(e) => Bad(e)
      case Fine(w) => Fine(SetP(ps, name, w))
  }

  function ShiftProps(ps: seq<DProp>, delta: nat): (r: Outcome<seq<DProp>>)
    ensures r.Bad? ==> r.err == FDT_ERR_BADPHANDLE || r.err == FDT_ERR_NOPHANDLES
  {
    match ShiftProp(ps, PhandleName(), delta)
    case Bad(e) => Bad(e)
    case Fine(q) => ShiftProp(q, LinuxPhandleName(), delta)
  }

  /** Every phandle of a subtree raised by delta; the first error, parents before children, stops it. */
  function ShiftTree(d: DT, delta: nat): (r: Outcome<DT>)
    ensures r.Bad? ==> r.err == FDT_ERR_BADPHANDLE || r.err == FDT_ERR_NOPHANDLES
    decreases d, 1
  {
    match ShiftProps(d.props, delta)
    case Bad(e) => Bad(e)
    case Fine(ps) =>
      match ShiftKids(d.kids, delta)
      case Bad(e) => Bad(e)
      case Fine(ks) => Fine(DT(d.name, ps, ks))
  }

  function ShiftKids(ks: seq<DT>, delta: nat): (r: Outcome<seq<DT>>)
    ensures r.Bad? ==> r.err == FDT_ERR_BADPHANDLE || r.err == FDT_ERR_NOPHANDLES
    ensures r.Fine? ==> |r.value| == |ks|
    decreases ks, 0
  {
    if ks == [] then Fine([])
    else
      match ShiftTree(ks[0], delta)
      case Bad(e) => Bad(e)
      case Fine(x) => After([x], ShiftKids(ks[1..], delta))
  }

  function After(done: seq<DT>, rest: Outcome<seq<DT>>): (r: Outcome<seq<DT>>)
    ensures r.Bad? <==> rest.Bad?
    ensures r.Bad? ==> r.err == rest.err
  {
    match rest
    case Bad(e) => Bad(e)
    case Fine(x) => Fine(done + x)
  }

  // ------------------------------------------------------------------ what it is for

  function HasPhandle(ps: seq<DProp>): bool {
    Lookup(ps, PhandleName()).Some? || Lookup(ps, LinuxPhandleName()).Some?
  }

  /** A shifted node's phandle is higher by delta, and nothing else of its properties changes. */
  lemma ShiftedProps(ps: seq<DProp>, delta: nat, other: bytes)
    requires ShiftProps(ps, delta).Fine? && delta < TWO32
    ensures var q := ShiftProps(ps, delta).value;
      && PhandleOf(q) == (if HasPhandle(ps) then PhandleOf(ps) + delta else 0)
      && (other != PhandleName() && other != LinuxPhandleName() ==> Lookup(q, other) == Lookup(ps, other))
  {
    hide Lookup, SetP, U32, BE32;
    assert PhandleName() != LinuxPhandleName();
    var q := ShiftProp(ps, PhandleName(), delta).value;
    ShiftedProp(ps, PhandleName(), delta, PhandleName());
    ShiftedProp(ps, PhandleName(), delta, LinuxPhandleName());
    ShiftedProp(ps, PhandleName(), delta, other);
    ShiftedProp(q, LinuxPhandleName(), delta, PhandleName());
    ShiftedProp(q, LinuxPhandleName(), delta, LinuxPhandleName());
    ShiftedProp(q, LinuxPhandleName(), delta, other);
  }

  lemma ShiftedProp(ps: seq<DProp>, name: bytes, delta: nat, other: bytes)
    requires ShiftProp(ps, name, delta).Fine? && delta < TWO32
    ensures var q, v := ShiftProp(ps, name, delta).value, Lookup(ps, name);
      && (other != name ==> Lookup(q, other) == Lookup(ps, other))
      && (Lookup(q, name).Some? <==> v.Some?)
      && (v.Some? ==> WordOf(v).Some? && WordOf(Lookup(q, name)) == Some(WordOf(v).value + delta))
  {
    hide Lookup, SetP, U32, BE32;
    var v := Lookup(ps, name);
    if v.Some? {
      var x := U32(v.value, 0);
      assert (x + delta) % TWO32 >= x && x + delta < TWO32;
      SetLookup(ps, name, BE32(x + delta), other);
      SetLookup(ps, name, BE32(x + delta), name);
      BE32RoundTrip(x + delta);
    }
  }

  /** The shifted tree has the same nodes, each with its own properties shifted. */
  lemma {:induction false} ShiftedAt(o: DT, delta: nat, q: seq<nat>)
    requires ShiftTree(o, delta).Fine?
    ensures DIsPath(ShiftTree(o, delta).value, q) <==> DIsPath(o, q)
    ensures DIsPath(o, q) ==> var n := DAt(ShiftTree(o, delta).value, q);
      n.name == DAt(o, q).name && ShiftProps(DAt(o, q).props, delta) == Fine(n.props)
    decreases q
  {
    hide ShiftProps;
    if q != [] && q[0] < |o.kids| {
      ShiftedKid(o.kids, delta, q[0]);
      ShiftedAt(o.kids[q[0]], delta, q[1..]);
    }
  }

  lemma {:induction false} ShiftedKid(ks: seq<DT>, delta: nat, i: nat)
    requires ShiftKids(ks, delta).Fine? && i < |ks|
    ensures ShiftTree(ks[i], delta) == Fine(ShiftKids(ks, delta).value[i])
    decreases i
  {
    hide ShiftTree;
    if i > 0 {
      ShiftedKid(ks[1..], delta, i - 1);
    }
  }

  function Max(a: nat, b: nat): nat {
    if a < b then b else a
  }

  /** The largest phandle of a tree, 0 if it has none. */
  function MaxPhandle(d: DT): nat
    decreases d, 1
  {
    Max(PhandleOf(d.props), MaxPhandles(d.kids))
  }

  function MaxPhandles(ks: seq<DT>): nat
    decreases ks, 0
  {
    if ks == [] then 0 else Max(MaxPhandle(ks[0]), MaxPhandles(ks[1..]))
  }

  lemma {:induction false} MaxIsMax(d: DT, r: seq<nat>)
    requires DIsPath(d, r)
    ensures PhandleOf(DAt(d, r).props) <= MaxPhandle(d)
    decreases r
  {
    hide PhandleOf;
    if r != [] {
      MaxIsMax(d.kids[r[0]], r[1..]);
      MaxOfKid(d.kids, r[0]);
    }
  }

  lemma {:induction false} MaxOfKid(ks: seq<DT>, i: nat)
    requires i < |ks|
    ensures MaxPhandle(ks[i]) <= MaxPhandles(ks)
    decreases i
  {
    hide MaxPhandle;
    if i > 0 {
      MaxOfKid(ks[1..], i - 1);
    }
  }

  /**
    Once an overlay is shifted by the base tree's largest phandle, a node of it has a phandle above
    all of the base's exactly if it had one other than 0 before; an explicit 0 becomes the largest
    phandle of the base.
   */
  lemma NoClash(d: DT, o: DT, q: seq<nat>)
    requires MaxPhandle(d) < TWO32 && ShiftTree(o, MaxPhandle(d)).Fine? && DIsPath(o, q)
    ensures DIsPath(ShiftTree(o, MaxPhandle(d)).value, q)
    ensures var x, y := PhandleOf(DAt(o, q).props), PhandleOf(DAt(ShiftTree(o, MaxPhandle(d)).value, q).props);
      (y > MaxPhandle(d) <==> x > 0) && (x > 0 ==> y == x + MaxPhandle(d))
    ensures forall r :: DIsPath(d, r) && PhandleOf(DAt(o, q).props) > 0 ==>
      PhandleOf(DAt(ShiftTree(o, MaxPhandle(d)).value, q).props) != PhandleOf(DAt(d, r).props)
  {
    hide ShiftTree, MaxPhandle;
    ShiftedAt(o, MaxPhandle(d), q);
    ShiftedProps(DAt(o, q).props, MaxPhandle(d), []);
    forall r | DIsPath(d, r)
      ensures PhandleOf(DAt(d, r).props) <= MaxPhandle(d)
    {
      MaxIsMax(d, r);
    }
  }

  lemma {:induction false} MaxAttained(d: DT) returns (r: seq<nat>)
    ensures MaxPhandle(d) > 0 ==> DIsPath(d, r) && PhandleOf(DAt(d, r).props) == MaxPhandle(d)
    decreases d, 1
  {
    hide PhandleOf;
    r := [];
    if PhandleOf(d.props) < MaxPhandles(d.kids) {
      var i, q := MaxAmong(d.kids);
      r := [i] + q;
      assert r[1..] == q;
    }
  }

  lemma {:induction false} MaxAmong(ks: seq<DT>) returns (i: nat, r: seq<nat>)
    ensures MaxPhandles(ks) > 0 ==> i < |ks| && DIsPath(ks[i], r) && PhandleOf(DAt(ks[i], r).props) == MaxPhandles(ks)
    decreases ks, 0
  {
    hide PhandleOf, MaxPhandle;
    i, r := 0, [];
    if ks != [] {
      if MaxPhandle(ks[0]) < MaxPhandles(ks[1..]) {
        i, r := MaxAmong(ks[1..]);
        i := i + 1;
      } else {
        r := MaxAttained(ks[0]);
      }
    }
  }

  /** An overlay of one node with phandle 0 clashes with every base that has a phandle. */
  lemma Clash(d: DT) returns (r: seq<nat>)
    requires 0 < MaxPhandle(d) < NO_PHANDLE
    ensures var o := ShiftTree(DT([], [DProp(PhandleName(), BE32(0))], []), MaxPhandle(d));
      DIsPath(d, r) && o.Fine? && PhandleOf(o.value.props) == PhandleOf(DAt(d, r).props)
  {
    hide MaxPhandle, BE32;
    r := MaxAttained(d);
    var ps := [DProp(PhandleName(), BE32(0))];
    BE32RoundTrip(0);
    assert FindD(ps, PhandleName()) == 0;
    assert PhandleName() != LinuxPhandleName();
    assert ShiftProp(ps, PhandleName(), MaxPhandle(d)).Fine?;
    SetLookup(ps, PhandleName(), BE32(MaxPhandle(d)), LinuxPhandleName());
    assert ShiftProps(ps, MaxPhandle(d)).Fine?;
    ShiftedProps(ps, MaxPhandle(d), []);
  }

  // ------------------------------------------------------------------ fdt_find_max_phandle

  /** The largest phandle of the nodes from token j on. */
  function MaxTok(t: bytes, ts: seq<Tok>, j: nat): nat
    decreases |ts| - j
  {
    if j >= |ts| || ts[j].TFin? then 0
    else if ts[j].TBegin? then Max(PhandleOf(TokProps(t, ts, j + 1)), MaxTok(t, ts, j + 1))
    else MaxTok(t, ts, j + 1)
  }

  lemma {:induction false} MaxNext(t: bytes, ts: seq<Tok>, j: nat, d: int)
    ensures MaxTok(t, ts, j) == match Next(ts, j, d, false)
      case AtNode(k, _) => Max(PhandleOf(TokProps(t, ts, k + 1)), MaxTok(t, ts, k + 1))
      case _ => 0
    decreases |ts| - j
  {
    hide PhandleOf, TokProps;
    if j < |ts| && !ts[j].TBegin? && !ts[j].TFin? {
      MaxNext(t, ts, j + 1, if ts[j].TEnd? then d - 1 else d);
    }
  }

  /** Over a subtree the scan sees exactly the phandles of its meaning. */
  lemma {:induction false} MaxTokNode(t: bytes, ts: seq<Tok>, a: nat, it: Item)
    requires it.Node? && OkItem(t, it) && Occurs(ts, a, Flat(it))
    ensures MaxTok(t, ts, a) == Max(MaxPhandle(Mean(t, it)), MaxTok(t, ts, a + |Flat(it)|))
    decreases it, 1
  {
    hide Flat, FlatS, Occurs, PropsOf, KidsOf, PhandleOf, TokProps;
    NodeParts(ts, a, it);
    TokPropsItems(t, ts, a + 1, it.items);
    MaxTokItems(t, ts, a + 1, it.items);
  }

  lemma {:induction false} MaxTokItems(t: bytes, ts: seq<Tok>, a: nat, its: seq<Item>)
    requires OkItems(t, its) && Occurs(ts, a, FlatS(its))
    ensures MaxTok(t, ts, a) == Max(MaxPhandles(KidsOf(t, its)), MaxTok(t, ts, a + |FlatS(its)|))
    decreases its, 0
  {
    hide Flat, Occurs, PropsOf, PhandleOf, TokProps, Mean, MaxPhandle, OkItem, TagAlign;
    if its != [] {
      assert FlatS(its) == Flat(its[0]) + FlatS(its[1..]);
      OccursCat(ts, a, Flat(its[0]), FlatS(its[1..]));
      MaxTokItems(t, ts, a + |Flat(its[0])|, its[1..]);
      if its[0].Node? {
        MaxTokNode(t, ts, a, its[0]);
        assert KidsOf(t, its)[1..] == KidsOf(t, its[1..]);
      } else {
        LeafTok(ts, a, its[0]);
        assert KidsOf(t, its) == KidsOf(t, its[1..]);
      }
    }
  }

  /** fdt_find_max_phandle */
  method FindMaxPhandle(f: Fdt) returns (err: int, phandle: nat)
    requires f.Valid()
    ensures err == 0 && phandle == MaxPhandle(f.Meaning())
  {
    hide Flat, FlatS, Pre, Post, Enc, Off, Wf, StringsOf, PropsOf, KidsOf, TokProps, Block, PhandleOf, MaxTok, Mean, NodeOff, IsPath, Next, At, MaxPhandle;
    WfLaid(f.hdr, f.mem[..], f.root, f.rsv);
    RootTokens(f.root);
    NodeFacts(f, []);
    ghost var t, ts := f.Strings(), Block(f.root);
    MaxTokNode(t, ts, 0, f.root);
    BlockEnd(t, f.root);
    ghost var goal := MaxTok(t, ts, 0);
    MaxNext(t, ts, 0, 0);
    ghost var stop := Next(ts, 0, 0, false);
    ghost var j := if stop.AtNode? then stop.j else 0;
    var max := 0;
    var offset, d := NextNode(f, -1, 0, false, ts, -1);
    while offset >= 0
      invariant offset >= 0 ==> j < |ts| && ts[j].TBegin? && offset == Off(ts, j)
      invariant offset >= 0 ==> goal == Max(max, Max(PhandleOf(TokProps(t, ts, j + 1)), MaxTok(t, ts, j + 1)))
      invariant offset < 0 ==> offset == -FDT_ERR_NOTFOUND && goal == max
      decreases offset >= 0, |ts| - j
    {
      ghost var q := NodeAtTok(f, j);
      var value := GetPhandle(f, offset, q);
      if value > max {
        max := value;
      }
      MaxNext(t, ts, j + 1, 0);
      stop := Next(ts, j + 1, 0, false);
      offset, d := NextNode(f, offset, 0, false, ts, j);
      if stop.AtNode? { j := stop.j; }
    }
    return 0, max;
  }

  lemma BlockEnd(t: bytes, root: Item)
    requires root.Node?
    ensures MaxTok(t, Block(root), |Flat(root)|) == 0
  {
    hide Flat;
  }

  lemma {:induction false} PhandleFits(d: DT)
    ensures MaxPhandle(d) < TWO32
    decreases d, 1
  {
    hide U32, Lookup;
    PhandlesFit(d.kids);
  }

  lemma {:induction false} PhandlesFit(ks: seq<DT>)
    ensures MaxPhandles(ks) < TWO32
    decreases ks, 0
  {
    if ks != [] {
      PhandleFits(ks[0]);
      PhandlesFit(ks[1..]);
    }
  }

  // ------------------------------------------------------------------ overlay_adjust_local_phandles

  /** overlay_phandle_add_offset */
  method PhandleAddOffset(f: Fdt, node: nat, name: bytes, delta: nat, ghost p: seq<nat>) returns (ret: int)
    requires f.Valid() && IsPath(f.root, p) && node == NodeOff(f.root, p) && NoNul(name) && delta < TWO32
    modifies f`root, f.mem
    ensures f.Valid() && f.Strings() == old(f.Strings()) && SameShape(old(f.root), f.root)
    ensures var d := old(Mean(f.Strings(), At(f.root, p)));
      if Lookup(d.props, name).None? then ret == -FDT_ERR_NOTFOUND
      else match ShiftProp(d.props, name, delta)
        case Bad(e) => ret == -e
        case Fine(ps) => ret == 0 && NodeBecame(old(f.root), old(f.Strings()), f, p, d.(props := ps))
    ensures ret != 0 ==> f.root == old(f.root) && f.mem[..] == old(f.mem[..])
  {
    hide StringsOf, Wf, At, Mean, Lookup, NodeOff, U32, Load, IsPath, SameShape, NodeBecame, Edited, BE32, SetP;
    ShapeRefl(f.root);
    ghost var v := Lookup(Mean(f.Strings(), At(f.root, p)).props, name);
    var data, len := GetProp(f, node, name, p);
    if len < 0 { return len; }
    if len != 4 { return -FDT_ERR_BADPHANDLE; }
    WordAt(f.mem, data, v.value);
    var adjVal := Load(f.mem, data);
    if (adjVal + delta) % TWO32 < adjVal { return -FDT_ERR_NOPHANDLES; }
    adjVal := (adjVal + delta) % TWO32;
    if adjVal == NO_PHANDLE { return -FDT_ERR_NOPHANDLES; }
    ret := SetPropInPlace(f, node, name, BE32(adjVal), p);
  }

  /** One of the two properties of a node that is being shifted. */
  method AdjustProp(f: Fdt, node: nat, name: bytes, delta: nat, ghost p: seq<nat>, ghost r0: Item, ghost t0: bytes, ghost d: DT) returns (ret: int)
    requires Merging(r0, t0, f, f.rsv, p, d) && node == NodeOff(r0, p) && NoNul(name) && delta < TWO32
    modifies f`root, f.mem
    ensures SameShape(old(f.root), f.root) && f.Strings() == old(f.Strings())
    ensures match ShiftProp(d.props, name, delta)
      case Bad(e) => ret == -e && Merging(r0, t0, f, f.rsv, p, d)
      case Fine(ps) => (ret == 0 || ret == -FDT_ERR_NOTFOUND) && Merging(r0, t0, f, f.rsv, p, d.(props := ps))
  {
    hide StringsOf, Wf, At, Put, PropsOf, KidsOf, SetP, ItemOff, NodeOff, Edited, NodeBecame, Lookup, ShiftWord, SameShape;
    ghost var r1, t1 := f.root, f.Strings();
    EditedPath(r0, t0, r1, t1, p);
    ret := PhandleAddOffset(f, node, name, delta, p);
    if ret == 0 {
      MergingStep(r0, t0, r1, t1, f, f.rsv, p, d.(props := ShiftProp(d.props, name, delta).value));
    }
  }

  /** overlay_adjust_node_phandles */
  method AdjustNode(f: Fdt, node: nat, delta: nat, ghost p: seq<nat>, ghost r0: Item, ghost t0: bytes, ghost d: DT) returns (ret: int)
    requires Merging(r0, t0, f, f.rsv, p, d) && IsPath(f.root, p) && node == NodeOff(r0, p) && delta < TWO32
    modifies f`root, f.mem
    ensures SameShape(old(f.root), f.root) && f.Valid() && f.Strings() == old(f.Strings())
    ensures match ShiftTree(d, delta)
      case Bad(e) => ret == -e
      case Fine(x) => ret == 0 && Merging(r0, t0, f, f.rsv, p, x)
    decreases |Flat(At(f.root, p))|, 3
  {
    hide StringsOf, Wf, At, IsPath, Flat, SameShape, ShiftProp, Merging, ShiftKids;
    ghost var r1 := f.root;
    ret := AdjustProp(f, node, PhandleName(), delta, p, r0, t0, d);
    ghost var d1 := if ShiftProp(d.props, PhandleName(), delta).Fine? then d.(props := ShiftProp(d.props, PhandleName(), delta).value) else d;
    MergingFacts(r0, t0, f, p, d1);
    if ret != 0 && ret != -FDT_ERR_NOTFOUND { return; }
    ghost var r2 := f.root;
    ret := AdjustProp(f, node, LinuxPhandleName(), delta, p, r0, t0, d1);
    ghost var d2 := if ShiftProps(d.props, delta).Fine? then d.(props := ShiftProps(d.props, delta).value) else d1;
    MergingFacts(r0, t0, f, p, d2);
    ShapeTrans(r1, r2, f.root);
    if ret != 0 && ret != -FDT_ERR_NOTFOUND { return; }
    ghost var r3 := f.root;
    ShapeAt(r1, f.root, p);
    ShapeFlat(At(r1, p), At(f.root, p));
    ret := AdjustKids(f, node, delta, p, r0, t0, d2);
    ShapeTrans(r1, r3, f.root);
  }

  /** In the loop over the children of the node at p: it means e, d with its first c children shifted; item k is next. */
  ghost predicate Shifting(r0: Item, t0: bytes, f: Fdt, p: seq<nat>, d: DT, e: DT, k: nat, c: nat, delta: nat)
    reads f, f.mem
  {
    && Merging(r0, t0, f, f.rsv, p, e) && IsPath(f.root, p) && AtKid(At(f.root, p), k, c, |d.kids|)
    && PartShifted(d.kids, e.kids, c, delta) && e == d.(kids := e.kids)
  }

  lemma ShiftingIs(r0: Item, t0: bytes, f: Fdt, p: seq<nat>, d: DT, e: DT, k: nat, c: nat, delta: nat)
    requires Shifting(r0, t0, f, p, d, e, k, c, delta)
    ensures f.Valid() && IsPath(f.root, p) && k <= |At(f.root, p).items| && (k < |At(f.root, p).items| ==> At(f.root, p).items[k].Node?)
    ensures k == |At(f.root, p).items| ==> ShiftKids(d.kids, delta) == Fine(e.kids) && Merging(r0, t0, f, f.rsv, p, d.(kids := e.kids))
  {
    MergingFacts(r0, t0, f, p, e);
  }

  lemma ShiftingStart(r0: Item, t0: bytes, f: Fdt, p: seq<nat>, d: DT, delta: nat)
    requires Merging(r0, t0, f, f.rsv, p, d)
    ensures IsPath(f.root, p) && Shifting(r0, t0, f, p, d, d, KidIdx(At(f.root, p).items, Any), 0, delta)
  {
    hide StringsOf, Wf, KidIdx, Merging, PartShifted, AtKid;
    MergingFacts(r0, t0, f, p, d);
    FirstOfKids(f.Strings(), At(f.root, p));
    NoneShifted(d.kids, delta);
  }

  /** Its loop over the children. */
  method AdjustKids(f: Fdt, node: nat, delta: nat, ghost p: seq<nat>, ghost r0: Item, ghost t0: bytes, ghost d: DT) returns (ret: int)
    requires Merging(r0, t0, f, f.rsv, p, d) && IsPath(f.root, p) && node == NodeOff(r0, p) && delta < TWO32
    modifies f`root, f.mem
    ensures SameShape(old(f.root), f.root) && f.Valid() && f.Strings() == old(f.Strings())
    ensures match ShiftKids(d.kids, delta)
      case Bad(e) => ret == -e
      case Fine(x) => ret == 0 && Merging(r0, t0, f, f.rsv, p, d.(kids := x))
    decreases |Flat(At(f.root, p))|, 2
  {
    hide StringsOf, Wf, At, IsPath, Flat, SameShape, ShiftKids, Merging, KidIdx, NodeOff, ItemOff, Shifting;
    MergingFacts(r0, t0, f, p, d);
    ghost var r1, e, k, c := f.root, d, KidIdx(At(f.root, p).items, Any), 0;
    ShapeRefl(r1);
    ShiftingStart(r0, t0, f, p, d, delta);
    ShiftingIs(r0, t0, f, p, d, e, k, c, delta);
    var child := FirstKid(f, node, p);
    while child >= 0
      invariant f.Valid() && f.Strings() == old(f.Strings()) && IsPath(f.root, p) && SameShape(r1, f.root) && Shifting(r0, t0, f, p, d, e, k, c, delta)
      invariant k <= |At(f.root, p).items| && child == if k < |At(f.root, p).items| then ItemOff(f.root, p, k) else -FDT_ERR_NOTFOUND
      invariant |At(f.root, p).items| == |At(r1, p).items|
      decreases |At(r1, p).items| - k
    {
      ghost var r2 := f.root;
      ShapeAt(r1, r2, p);
      ShapeFlat(At(r1, p), At(r2, p));
      ret, child, e, k := StepKid(f, child, delta, p, k, c, r0, t0, d, e);
      ShapeTrans(r1, r2, f.root);
      if ret != 0 { return; }
      ShapeAt(r1, f.root, p);
      KindKept(At(r1, p), At(f.root, p));
      c := c + 1;
    }
    ShiftingIs(r0, t0, f, p, d, e, k, c, delta);
    return 0;
  }

  /** Its body: a child, and where the next one is. */
  method StepKid(f: Fdt, child: nat, delta: nat, ghost p: seq<nat>, ghost k: nat, ghost c: nat, ghost r0: Item, ghost t0: bytes, ghost d: DT, ghost e: DT)
      returns (ret: int, next: int, ghost e': DT, ghost k': nat)
    requires Shifting(r0, t0, f, p, d, e, k, c, delta) && delta < TWO32 && IsPath(f.root, p) && k < |At(f.root, p).items| && child == ItemOff(f.root, p, k)
    modifies f`root, f.mem
    ensures SameShape(old(f.root), f.root) && f.Valid() && f.Strings() == old(f.Strings())
    ensures ret != 0 ==> ShiftKids(d.kids, delta) == Bad(-ret)
    ensures ret == 0 ==> Shifting(r0, t0, f, p, d, e', k', c + 1, delta) && IsPath(f.root, p)
    ensures ret == 0 ==> k < k' <= |At(f.root, p).items| && next == if k' < |At(f.root, p).items| then ItemOff(f.root, p, k') else -FDT_ERR_NOTFOUND
    decreases |Flat(At(f.root, p))|, 1
  {
    hide StringsOf, Wf, At, IsPath, Flat, SameShape, ShiftTree, ShiftKids, Merging, Mean, KidIdx, Matches, KidsOf, NodeOff, ItemOff, After, PartShifted, AtKid;
    next, e', k' := 0, e, k;
    ghost var r2 := f.root;
    AtKidIs(At(r2, p), k, c, |d.kids|);
    PartIs(d.kids, e.kids, c, delta);
    ret := AdjustKid(f, child, delta, p, k, r0, t0, e);
    KidShifted(d.kids, e.kids, c, delta);
    if ret != 0 { return; }
    e' := e.(kids := e.kids[c := ShiftTree(e.kids[c], delta).value]);
    MergingFacts(r0, t0, f, p, e');
    ShapeItem(r2, f.root, p, k);
    ShapeAt(r2, f.root, p);
    NextOfKids(f.Strings(), At(r2, p), At(f.root, p), k, c, |d.kids|);
    next := NextKid(f, child, p, k);
    k' := k + 1 + KidIdx(At(f.root, p).items[k + 1..], Any);
    AtKidIs(At(f.root, p), k', c + 1, |d.kids|);
  }

  /** Item k of node n is a child, c children before it, or k and c are the numbers of all items and children. */
  ghost predicate AtKid(n: Item, k: nat, c: nat, total: nat) {
    && n.Node? && k <= |n.items| && (k < |n.items| ==> n.items[k].Node?)
    && c == Meaning.Nodes(n.items[..k]) && (k == |n.items| ==> c == total)
  }

  lemma AtKidIs(n: Item, k: nat, c: nat, total: nat)
    requires AtKid(n, k, c, total)
    ensures n.Node? && k <= |n.items| && (k < |n.items| ==> n.items[k].Node?)
    ensures c == Meaning.Nodes(n.items[..k]) && (k == |n.items| ==> c == total)
  {
  }

  /** The child itself. */
  method AdjustKid(f: Fdt, child: nat, delta: nat, ghost p: seq<nat>, ghost k: nat, ghost r0: Item, ghost t0: bytes, ghost d: DT) returns (ret: int)
    requires Merging(r0, t0, f, f.rsv, p, d) && IsPath(f.root, p) && delta < TWO32
    requires k < |At(f.root, p).items| && At(f.root, p).items[k].Node? && child == ItemOff(f.root, p, k)
    modifies f`root, f.mem
    ensures SameShape(old(f.root), f.root) && f.Valid() && f.Strings() == old(f.Strings())
    ensures var c := old(Meaning.Nodes(At(f.root, p).items[..k])); c < |d.kids| && match ShiftTree(d.kids[c], delta)
      case Bad(e) => ret == -e
      case Fine(x) => ret == 0 && Merging(r0, t0, f, f.rsv, p, d.(kids := d.kids[c := x]))
    decreases |Flat(At(f.root, p))|, 0
  {
    hide StringsOf, Wf, IsPath, Flat, SameShape, ShiftTree, Merging, Mean, KidsOf, NodeOff, ItemOff;
    ghost var r1, t1 := f.root, f.Strings();
    MergingFacts(r0, t0, f, p, d);
    KidPath(r1, p, k);
    MergingStart(f, p + [k]);
    SmallerKid(At(r1, p), k);
    MergingUp(r0, t0, r1, t1, f, f.rsv, p, k, Mean(t1, At(r1, p + [k])));
    ret := AdjustNode(f, child, delta, p + [k], r1, t1, Mean(t1, At(r1, p + [k])));
    if ret == 0 {
      MergingUp(r0, t0, r1, t1, f, f.rsv, p, k, ShiftTree(Mean(t1, At(r1, p + [k])), delta).value);
    }
  }

  lemma SmallerKid(n: Item, k: nat)
    requires n.Node? && k < |n.items|
    ensures |Flat(n.items[k])| < |Flat(n)|
  {
    FlatSSplit(n.items, k);
  }

  lemma FirstOfKids(t: bytes, n: Item)
    requires n.Node?
    ensures AtKid(n, KidIdx(n.items, Any), 0, |Mean(t, n).kids|)
  {
    var k := KidIdx(n.items, Any);
    KidsStart(t, n.items);
    NodesKids(t, n.items[..k]);
    if k == |n.items| {
      assert n.items[..k] == n.items;
    }
  }

  /** The kids es are ks with the first c shifted. */
  ghost predicate PartShifted(ks: seq<DT>, es: seq<DT>, c: nat, delta: nat) {
    && c <= |ks| == |es| && es[c..] == ks[c..] && ShiftKids(ks, delta) == After(es[..c], ShiftKids(ks[c..], delta))
    && (c == |ks| ==> ShiftKids(ks, delta) == Fine(es))
  }

  lemma PartIs(ks: seq<DT>, es: seq<DT>, c: nat, delta: nat)
    requires PartShifted(ks, es, c, delta)
    ensures c <= |ks| == |es| && (c == |ks| ==> ShiftKids(ks, delta) == Fine(es))
  {
  }

  lemma NoneShifted(ks: seq<DT>, delta: nat)
    ensures PartShifted(ks, ks, 0, delta)
  {
    assert ks[0..] == ks;
    var r := ShiftKids(ks, delta);
    if r.Fine? {
      assert [] + r.value == r.value;
    }
  }

  lemma KidShifted(ks: seq<DT>, es: seq<DT>, c: nat, delta: nat)
    requires PartShifted(ks, es, c, delta) && c < |ks|
    ensures |es| == |ks| && es[c] == ks[c]
    ensures match ShiftTree(ks[c], delta)
      case Bad(e) => ShiftKids(ks, delta) == Bad(e)
      case Fine(x) => PartShifted(ks, es[c := x], c + 1, delta)
  {
    hide ShiftTree;
    assert es[c..][0] == ks[c..][0];
    var u := ks[c..];
    assert u[0] == ks[c] && u[1..] == ks[c + 1..];
    match ShiftTree(ks[c], delta)
    case Bad(_) =>
    case Fine(x) =>
      var fs, rest := es[c := x], ShiftKids(ks[c + 1..], delta);
      assert fs[..c + 1] == es[..c] + [x] && fs[c + 1..] == es[c..][1..];
      if rest.Fine? {
        assert es[..c] + ([x] + rest.value) == (es[..c] + [x]) + rest.value;
      }
      if c + 1 == |ks| {
        assert ks[c + 1..] == [] && fs[..c + 1] + [] == fs;
      }
  }

  lemma {:induction false} ShapeNodes(a: seq<Item>, b: seq<Item>)
    requires SameShapes(a, b)
    ensures Meaning.Nodes(a) == Meaning.Nodes(b)
  {
    hide SameShape;
    if a != [] {
      ShapeNodes(a[1..], b[1..]);
      assert SameShape(a[0], b[0]);
      KindKept(a[0], b[0]);
    }
  }

  lemma KindKept(a: Item, b: Item)
    requires SameShape(a, b)
    ensures a.Node? <==> b.Node?
    ensures a.Node? ==> SameShapes(a.items, b.items)
  {
  }

  lemma NodesStep(t: bytes, its: seq<Item>, k: nat)
    requires k < |its| && its[k].Node?
    ensures Meaning.Nodes(its[..k + 1 + KidIdx(its[k + 1..], Any)]) == Meaning.Nodes(its[..k]) + 1
  {
    hide KidsOf, Mean, Meaning.Nodes;
    KidsStep(t, its, k);
    NodesKids(t, its[..k + 1 + KidIdx(its[k + 1..], Any)]);
    NodesKids(t, its[..k]);
  }

  lemma AllNodes(t: bytes, n: Item)
    requires n.Node?
    ensures Meaning.Nodes(n.items) == |Mean(t, n).kids|
  {
    hide KidsOf, PropsOf, Meaning.Nodes;
    NodesKids(t, n.items);
  }

  /** From one child to the next; now is the node after the first has been shifted. */
  lemma NextOfKids(t: bytes, was: Item, now: Item, k: nat, c: nat, total: nat)
    requires SameShape(was, now) && was.Node? && k < |was.items| && AtKid(was, k, c, total) && now.Node? && total == |Mean(t, now).kids|
    ensures |now.items| == |was.items| && now.items[k].Node? && AtKid(now, k + 1 + KidIdx(now.items[k + 1..], Any), c + 1, total)
  {
    hide SameShape, Matches, PropsOf, KidsOf, Mean, Meaning.Nodes;
    KindKept(was, now);
    KindKept(was.items[k], now.items[k]);
    ShapeNodes(was.items[..k], now.items[..k]);
    var its, m := now.items, k + 1 + KidIdx(now.items[k + 1..], Any);
    NodesStep(t, its, k);
    if m == |its| {
      assert its[..m] == its;
      AllNodes(t, now);
    }
  }

  /** overlay_adjust_local_phandles */
  method AdjustLocalPhandles(f: Fdt, delta: nat) returns (ret: int)
    requires f.Valid() && delta < TWO32
    modifies f`root, f.mem
    ensures SameShape(old(f.root), f.root) && f.Valid() && f.Strings() == old(f.Strings())
    ensures match ShiftTree(old(f.Meaning()), delta)
      case Bad(e) => ret == -e
      case Fine(x) => ret == 0 && f.Meaning() == x
  {
    hide StringsOf, Wf, ShiftTree, Mean, SameShape;
    WfLaid(f.hdr, f.mem[..], f.root, f.rsv);
    MergingStart(f, []);
    RootPath(f.root);
    ghost var r0, t0 := f.root, f.Strings();
    ret := AdjustNode(f, 0, delta, [], r0, t0, f.Meaning());
    WfLaid(f.hdr, f.mem[..], f.root, f.rsv);
    RootPath(f.root);
  }
}
