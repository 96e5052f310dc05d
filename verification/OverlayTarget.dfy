/**
  Where a fragment of an overlay goes: overlay_get_target of fdt_overlay.c and the searches of
  fdt_ro.c it rests on, by phandle and by path.
 */
module OverlayTarget {
  import opened Wrappers
  import opened Bytes
  import opened Tokens
  import opened Tree
  import opened Meaning
  import opened Blob
  import opened Scan
  import opened Walk
  import opened TreeWalk
  import opened Props
  import opened Effects
  import opened Merge
  import opened Overlay
  import opened Paths

  const FDT_ERR_BADPHANDLE: int := 6
  const FDT_ERR_BADOVERLAY: int := 16
  const NO_PHANDLE: nat := 0xffff_ffff

  /** "phandle", "linux,phandle", "target", "target-path" */
  function PhandleName(): (r: bytes)
    ensures NoNul(r)
  {
    [112, 104, 97, 110, 100, 108, 101]
  }

  function LinuxPhandleName(): (r: bytes)
    ensures NoNul(r)
  {
    [108, 105, 110, 117, 120, 44, 112, 104, 97, 110, 100, 108, 101]
  }

  function TargetName(): (r: bytes)
    ensures NoNul(r)
  {
    [116, 97, 114, 103, 101, 116]
  }

  function TargetPathName(): (r: bytes)
    ensures NoNul(r)
  {
    [116, 97, 114, 103, 101, 116, 45, 112, 97, 116, 104]
  }

  // ------------------------------------------------------------------ what is looked for

  function WordOf(v: Option<bytes>): (r: Option<nat>)
  {
    if v.Some? && |v.value| == 4 then Some(U32(v.value, 0)) else None
  }

  /** The phandle of a node, 0 if it has none. */
  function PhandleOf(ps: seq<DProp>): nat {
    match WordOf(Lookup(ps, PhandleName()))
    case Some(x) => x
    case None =>
      match WordOf(Lookup(ps, LinuxPhandleName()))
      case Some(x) => x
      case None => 0
  }

  /** The first node with a phandle, parents before children, in document order. */
  function FindPhandle(d: DT, x: nat): (r: Found)
    ensures r.Reached? ==> DIsPath(d, r.path)
    decreases d, 1
  {
    if PhandleOf(d.props) == x then Reached([])
    else match FindPhandleS(d.kids, x)
      case Missing => Missing
      case Reached(q) => Reached(q)
  }

  function FindPhandleS(kids: seq<DT>, x: nat): (r: Found)
    ensures r.Reached? ==> r.path != [] && r.path[0] < |kids| && DIsPath(kids[r.path[0]], r.path[1..])
    decreases kids, 0
  {
    if kids == [] then Missing
    else match FindPhandle(kids[0], x)
      case Reached(q) => assert ([0] + q)[1..] == q; Reached([0] + q)
      case Missing =>
        match FindPhandleS(kids[1..], x)
        case Missing => Missing
        case Reached(q) => assert ([q[0] + 1] + q[1..])[1..] == q[1..]; Reached([q[0] + 1] + q[1..])
  }

  /** Where the parts of a path lead. */
  function FollowD(d: DT, segs: seq<bytes>): (r: Found)
    ensures r.Reached? ==> DIsPath(d, r.path)
    decreases |segs|
  {
    if segs == [] then Reached([])
    else
      var c := FindKidD(d.kids, segs[0]);
      if c == |d.kids| then Missing
      else match FollowD(d.kids[c], segs[1..])
        case Missing => Missing
        case Reached(q) => assert ([c] + q)[1..] == q; Reached([c] + q)
  }

  datatype Target = Goal(path: seq<nat>) | Fails(err: int)

  function GoalOf(r: Found): Target {
    match r case Missing => Fails(FDT_ERR_NOTFOUND) case Reached(q) => Goal(q)
  }

  /** The target of a fragment with these properties in base tree d: by phandle if it names one, else by path. */
  function TargetOf(d: DT, ps: seq<DProp>): (r: Target)
    ensures r.Goal? ==> DIsPath(d, r.path)
    ensures r.Fails? ==> r.err > 0 && r.err != FDT_ERR_NOSPACE
  {
    var t := Lookup(ps, TargetName());
    if t.Some? && (|t.value| != 4 || U32(t.value, 0) == NO_PHANDLE) then Fails(FDT_ERR_BADPHANDLE)
    else if t.Some? && U32(t.value, 0) != 0 then GoalOf(FindPhandle(d, U32(t.value, 0)))
    else
      match Lookup(ps, TargetPathName())
      case None => Fails(FDT_ERR_BADOVERLAY)
      case Some(v) => GoalOf(FollowD(d, Segs(StrAt(v, 0))))
  }

  /** A target path, if there is one, is a NUL-terminated path from the root. */
  predicate PathOk(ps: seq<DProp>) {
    var v := Lookup(ps, TargetPathName());
    v.Some? ==> Terminated(v.value, 0) && StrAt(v.value, 0) != [] && StrAt(v.value, 0)[0] == SLASH
  }

  // ------------------------------------------------------------------ fdt_getprop, fdt_get_phandle

  /** data and len are what fdt_getprop returns for a property of value v. */
  ghost predicate Got(m: bytes, v: Option<bytes>, data: int, len: int) {
    match v
    case None => len == -FDT_ERR_NOTFOUND
    case Some(w) => 0 <= data && len == |w| && Occurs(m, data, w)
  }

  /** fdt_getprop: the index of the value and its length. */
  method GetProp(f: Fdt, nodeoffset: nat, name: bytes, ghost p: seq<nat>) returns (data: int, len: int)
    requires f.Valid() && IsPath(f.root, p) && nodeoffset == NodeOff(f.root, p) && NoNul(name)
    ensures Got(f.mem[..], Lookup(Mean(f.Strings(), At(f.root, p)).props, name), data, len)
    ensures var k := FindP(f.Strings(), At(f.root, p).items, name); k < |At(f.root, p).items| ==> data == ValueAt(f, p, k)
  {
    hide Flat, FlatS, Pre, Post, Block, Enc, Tail, ItemPre, StringsOf, Wf, At, ItemPos, Off, StrAt, Terminated, Load, Scannable, FindP, PropsOf, KidsOf;
    ghost var its, t := At(f.root, p).items, f.Strings();
    ghost var k := FindP(t, its, name);
    var offset;
    offset, len := GetProperty(f, nodeoffset, name, p);
    PropValue(t, its, name);
    if offset < 0 { return -1, len; }
    PropHere(f, p, k);
    data := f.hdr.offStruct + offset + 12;
  }

  /** The value of a property among items is its value in the meaning. */
  lemma PropValue(t: bytes, its: seq<Item>, name: bytes)
    ensures var k := FindP(t, its, name);
      Lookup(PropsOf(t, its), name) == if k < |its| then Some(its[k].value) else None
  {
    hide PropsOf, FindP, StrAt, FindD;
    var k := FindP(t, its, name);
    FindBoth(t, its, name);
    if k < |its| {
      PropsSplit(t, its, k);
      OneProp(t, its[k]);
    }
  }

  method GetPhandle(f: Fdt, nodeoffset: nat, ghost p: seq<nat>) returns (r: nat)
    requires f.Valid() && IsPath(f.root, p) && nodeoffset == NodeOff(f.root, p)
    ensures r == PhandleOf(Mean(f.Strings(), At(f.root, p)).props)
  {
    hide StringsOf, Wf, At, Mean, Lookup, NodeOff, U32, Load;
    var data, len := GetProp(f, nodeoffset, PhandleName(), p);
    ghost var ps := Mean(f.Strings(), At(f.root, p)).props;
    if len < 0 || len != 4 {
      data, len := GetProp(f, nodeoffset, LinuxPhandleName(), p);
      if len < 0 || len != 4 { return 0; }
      WordAt(f.mem, data, Lookup(ps, LinuxPhandleName()).value);
      return Load(f.mem, data);
    }
    WordAt(f.mem, data, Lookup(ps, PhandleName()).value);
    return Load(f.mem, data);
  }

  lemma WordAt(mem: array<byte>, at: nat, v: bytes)
    requires |v| == 4 && Occurs(mem[..], at, v)
    ensures at + 4 <= mem.Length && Load(mem, at) == U32(v, 0)
  {
    OccursAt(mem[..], at, v, 0);
    OccursAt(mem[..], at, v, 1);
    OccursAt(mem[..], at, v, 2);
    OccursAt(mem[..], at, v, 3);
  }

  // ------------------------------------------------------------------ fdt_node_offset_by_phandle

  /** The properties from token j on, as long as there are only properties and NOPs. */
  function TokProps(t: bytes, ts: seq<Tok>, j: nat): seq<DProp>
    decreases |ts| - j
  {
    if j >= |ts| then []
    else match ts[j]
      case TNop => TokProps(t, ts, j + 1)
      case TProp(o, v, _) => [DProp(StrAt(t, o), v)] + TokProps(t, ts, j + 1)
      case _ => []
  }

  /** The first node from token j on with a phandle; -1 if there is none. */
  function FirstTok(t: bytes, ts: seq<Tok>, j: nat, x: nat): (r: int)
    ensures r == -1 || (j <= r < |ts| && ts[r].TBegin?)
    decreases |ts| - j
  {
    if j >= |ts| || ts[j].TFin? then -1
    else if ts[j].TBegin? && PhandleOf(TokProps(t, ts, j + 1)) == x then j
    else FirstTok(t, ts, j + 1, x)
  }

  /** Untracked, the next node is the next BEGIN_NODE. */
  lemma {:induction false} FirstNext(t: bytes, ts: seq<Tok>, j: nat, d: int, x: nat)
    ensures FirstTok(t, ts, j, x) == match Next(ts, j, d, false)
      case AtNode(k, _) => if PhandleOf(TokProps(t, ts, k + 1)) == x then k else FirstTok(t, ts, k + 1, x)
      case _ => -1
    decreases |ts| - j
  {
    if j < |ts| && !ts[j].TBegin? && !ts[j].TFin? {
      FirstNext(t, ts, j + 1, if ts[j].TEnd? then d - 1 else d, x);
    }
  }

  lemma PropsHead(t: bytes, its: seq<Item>)
    requires its != [] && PropsFirst(its)
    ensures PropsFirst(its[1..]) && FlatS(its) == Flat(its[0]) + FlatS(its[1..])
    ensures PropsOf(t, its) == if its[0].Node? then [] else
      (if its[0].Prop? then [DProp(StrAt(t, its[0].nameoff), its[0].value)] else []) + PropsOf(t, its[1..])
  {
    hide Flat, StrAt;
    if its[0].Node? {
      NoProps(t, its);
    }
  }

  lemma TokPropsStep(t: bytes, ts: seq<Tok>, j: nat)
    requires j < |ts|
    ensures TokProps(t, ts, j) == match ts[j]
      case TNop => TokProps(t, ts, j + 1)
      case TProp(o, v, _) => [DProp(StrAt(t, o), v)] + TokProps(t, ts, j + 1)
      case _ => []
  {
  }

  /** The tokens of a node's properties are its properties. */
  lemma {:induction false} TokPropsItems(t: bytes, ts: seq<Tok>, j: nat, its: seq<Item>)
    requires PropsFirst(its) && Occurs(ts, j, FlatS(its)) && j + |FlatS(its)| < |ts| && ts[j + |FlatS(its)|] == TEnd
    ensures TokProps(t, ts, j) == PropsOf(t, its)
    decreases its
  {
    hide Flat, FlatS, Occurs, StrAt, PropsOf, TokProps, PropsFirst;
    TokPropsStep(t, ts, j);
    if its == [] {
      assert FlatS(its) == [] && PropsOf(t, its) == [] by { NoPropItems(t); }
    } else {
      PropsHead(t, its);
      OccursCat(ts, j, Flat(its[0]), FlatS(its[1..]));
      if its[0].Node? {
        NodeFirst(ts, j, its[0]);
      } else {
        LeafTok(ts, j, its[0]);
        TokPropsItems(t, ts, j + 1, its[1..]);
      }
    }
  }

  lemma NoPropItems(t: bytes)
    ensures FlatS([]) == [] && PropsOf(t, []) == []
  {
  }

  lemma NodeFirst(ts: seq<Tok>, j: nat, it: Item)
    requires it.Node? && Occurs(ts, j, Flat(it))
    ensures j < |ts| && ts[j].TBegin?
  {
    NodeParts(ts, j, it);
  }

  /** Scanning a subtree finds what the search of its meaning finds. */
  lemma {:induction false} FirstTokNode(t: bytes, ts: seq<Tok>, a: nat, it: Item, x: nat) returns (p: seq<nat>)
    requires it.Node? && OkItem(t, it) && Occurs(ts, a, Flat(it))
    ensures match FindPhandle(Mean(t, it), x)
      case Reached(q) => IsPath(it, p) && DPath(it, p) == q && FirstTok(t, ts, a, x) == a + |Pre(it, p)|
      case Missing => FirstTok(t, ts, a, x) == FirstTok(t, ts, a + |Flat(it)|, x)
    decreases it, 1
  {
    hide Flat, FlatS, Occurs, PropsOf, KidsOf, PhandleOf, TokProps;
    p := [];
    NodeParts(ts, a, it);
    TokPropsItems(t, ts, a + 1, it.items);
    if PhandleOf(Mean(t, it).props) != x {
      var k, p' := FirstTokItems(t, ts, a + 1, it.items, x);
      if FindPhandleS(Mean(t, it).kids, x).Reached? {
        p := [k] + p';
        assert p[1..] == p';
      }
    }
  }

  /** What item k + 1 of a list is, seen from its tail. */
  lemma FromTail(its: seq<Item>, k: nat)
    requires its != [] && k < |its[1..]|
    ensures its[k + 1] == its[1..][k]
    ensures FlatS(its[..k + 1]) == Flat(its[0]) + FlatS(its[1..][..k])
    ensures Meaning.Nodes(its[..k + 1]) == (if its[0].Node? then 1 else 0) + Meaning.Nodes(its[1..][..k])
  {
    assert its[..k + 1][0] == its[0] && its[..k + 1][1..] == its[1..][..k];
  }

  lemma SearchHead(t: bytes, its: seq<Item>, x: nat)
    requires its != []
    ensures FlatS(its) == Flat(its[0]) + FlatS(its[1..]) && Meaning.Nodes(its[..0]) == 0 && FlatS(its[..0]) == []
    ensures !its[0].Node? ==> FindPhandleS(KidsOf(t, its), x) == FindPhandleS(KidsOf(t, its[1..]), x)
    ensures its[0].Node? ==> FindPhandleS(KidsOf(t, its), x) == match FindPhandle(Mean(t, its[0]), x)
      case Reached(q) => Reached([0] + q)
      case Missing =>
        match FindPhandleS(KidsOf(t, its[1..]), x)
        case Missing => Missing
        case Reached(q) => Reached([q[0] + 1] + q[1..])
  {
    hide FindPhandle, Mean, Flat;
    var ks := KidsOf(t, its);
    if its[0].Node? {
      assert ks[0] == Mean(t, its[0]) && ks[1..] == KidsOf(t, its[1..]);
    } else {
      assert ks == KidsOf(t, its[1..]);
    }
  }

  lemma {:induction false} FirstTokItems(t: bytes, ts: seq<Tok>, a: nat, its: seq<Item>, x: nat) returns (k: nat, p: seq<nat>)
    requires OkItems(t, its) && Occurs(ts, a, FlatS(its))
    ensures match FindPhandleS(KidsOf(t, its), x)
      case Reached(q) =>
        k < |its| && its[k].Node? && IsPath(its[k], p) && q == [Meaning.Nodes(its[..k])] + DPath(its[k], p) &&
        FirstTok(t, ts, a, x) == a + |FlatS(its[..k])| + |Pre(its[k], p)|
      case Missing => FirstTok(t, ts, a, x) == FirstTok(t, ts, a + |FlatS(its)|, x)
    decreases its, 0
  {
    hide Flat, FlatS, Occurs, PhandleOf, FindPhandle, FindPhandleS, KidsOf, Mean, TokProps, DPath, Pre, IsPath, Meaning.Nodes;
    k, p := 0, [];
    if its == [] {
      NoItems(t, x);
    } else {
      SearchHead(t, its, x);
      OccursCat(ts, a, Flat(its[0]), FlatS(its[1..]));
      var r := its[1..];
      if its[0].Node? {
        p := FirstTokNode(t, ts, a, its[0], x);
        if FindPhandle(Mean(t, its[0]), x).Reached? { return; }
      } else {
        LeafPart(ts, a, its[0]);
      }
      k, p := FirstTokItems(t, ts, a + |Flat(its[0])|, r, x);
      if FindPhandleS(KidsOf(t, r), x).Reached? {
        FromTail(its, k);
        k := k + 1;
      }
    }
  }

  lemma NoItems(t: bytes, x: nat)
    ensures FlatS([]) == [] && FindPhandleS(KidsOf(t, []), x) == Missing
  {
  }

  /** Every BEGIN_NODE of a subtree is a node of it. */
  lemma {:induction false} NodeOfTok(ts: seq<Tok>, a: nat, it: Item, j: nat) returns (p: seq<nat>)
    requires it.Node? && Occurs(ts, a, Flat(it)) && a <= j < a + |Flat(it)| && j < |ts| && ts[j].TBegin?
    ensures IsPath(it, p) && a + |Pre(it, p)| == j
    decreases it, 1
  {
    hide Flat, FlatS, Occurs;
    p := [];
    NodeParts(ts, a, it);
    if j > a {
      var k, p' := NodeOfTokS(ts, a + 1, it.items, j);
      p := [k] + p';
      assert p[1..] == p';
    }
  }

  lemma {:induction false} NodeOfTokS(ts: seq<Tok>, a: nat, its: seq<Item>, j: nat) returns (k: nat, p: seq<nat>)
    requires Occurs(ts, a, FlatS(its)) && a <= j < a + |FlatS(its)| && j < |ts| && ts[j].TBegin?
    ensures k < |its| && its[k].Node? && IsPath(its[k], p) && a + |FlatS(its[..k])| + |Pre(its[k], p)| == j
    decreases its, 0
  {
    hide Flat, Occurs, Pre;
    OccursCat(ts, a, Flat(its[0]), FlatS(its[1..]));
    if j < a + |Flat(its[0])| {
      if !its[0].Node? {
        LeafPart(ts, a, its[0]);
      }
      k := 0;
      p := NodeOfTok(ts, a, its[0], j);
      assert its[..0] == [];
    } else {
      k, p := NodeOfTokS(ts, a + |Flat(its[0])|, its[1..], j);
      assert its[..k + 1][0] == its[0] && its[..k + 1][1..] == its[1..][..k];
      k := k + 1;
    }
  }

  /** The path of the node at token j of a blob, and its phandle. */
  lemma NodeAtTok(f: Fdt, j: nat) returns (p: seq<nat>)
    requires f.Valid() && j < |Block(f.root)| && Block(f.root)[j].TBegin?
    ensures IsPath(f.root, p) && NodePos(f.root, p) == j && NodeOff(f.root, p) == Off(Block(f.root), j)
    ensures Mean(f.Strings(), At(f.root, p)).props == TokProps(f.Strings(), Block(f.root), j + 1)
  {
    hide Flat, FlatS, Pre, Post, Enc, Off, Wf, StringsOf, PropsOf, KidsOf, TokProps, Block;
    WfLaid(f.hdr, f.mem[..], f.root, f.rsv);
    RootTokens(f.root);
    p := NodeOfTok(Block(f.root), 0, f.root, j);
    NodeFacts(f, p);
    NodeTokens(f.root, p);
    TokPropsItems(f.Strings(), Block(f.root), j + 1, At(f.root, p).items);
  }

  /** The scan over all nodes. */
  method ScanPhandle(f: Fdt, phandle: nat) returns (r: int)
    requires f.Valid()
    ensures var g := FirstTok(f.Strings(), Block(f.root), 0, phandle); r == if g == -1 then -FDT_ERR_NOTFOUND else Off(Block(f.root), g)
  {
    hide Flat, FlatS, Pre, Post, Enc, Off, Wf, StringsOf, PropsOf, KidsOf, TokProps, Block, PhandleOf, FirstTok, Mean, NodeOff, IsPath, Next, At;
    WfLaid(f.hdr, f.mem[..], f.root, f.rsv);
    RootTokens(f.root);
    NodeFacts(f, []);
    ghost var t, ts := f.Strings(), Block(f.root);
    ghost var goal := FirstTok(t, ts, 0, phandle);
    FirstNext(t, ts, 0, 0, phandle);
    ghost var stop := Next(ts, 0, 0, false);
    ghost var j := if stop.AtNode? then stop.j else 0;
    var d;
    r, d := NextNode(f, -1, 0, false, ts, -1);
    while r >= 0
      invariant r >= 0 ==> j < |ts| && ts[j].TBegin? && r == Off(ts, j)
      invariant r >= 0 ==> goal == if PhandleOf(TokProps(t, ts, j + 1)) == phandle then j else FirstTok(t, ts, j + 1, phandle)
      invariant r < 0 ==> r == -FDT_ERR_NOTFOUND && goal == -1
      decreases r >= 0, |ts| - j
    {
      ghost var q := NodeAtTok(f, j);
      var x := GetPhandle(f, r, q);
      if x == phandle { return; }
      FirstNext(t, ts, j + 1, 0, phandle);
      stop := Next(ts, j + 1, 0, false);
      r, d := NextNode(f, r, 0, false, ts, j);
      if stop.AtNode? { j := stop.j; }
    }
  }

  /** fdt_node_offset_by_phandle */
  method NodeOffsetByPhandle(f: Fdt, phandle: nat) returns (r: int, ghost p: seq<nat>)
    requires f.Valid() && phandle < TWO32
    ensures if phandle == 0 || phandle == NO_PHANDLE then r == -FDT_ERR_BADPHANDLE
      else match FindPhandle(f.Meaning(), phandle)
        case Missing => r == -FDT_ERR_NOTFOUND
        case Reached(q) => IsPath(f.root, p) && DPath(f.root, p) == q && r == NodeOff(f.root, p)
  {
    hide Flat, FlatS, Pre, Post, Enc, Off, Wf, StringsOf, Block, FindPhandle, FirstTok, Mean, NodeOff, IsPath, DPath;
    p := [];
    if phandle == 0 || phandle == NO_PHANDLE { return -FDT_ERR_BADPHANDLE, p; }
    WfLaid(f.hdr, f.mem[..], f.root, f.rsv);
    RootTokens(f.root);
    p := FirstTokNode(f.Strings(), Block(f.root), 0, f.root, phandle);
    GoalIs(f, p, phandle);
    NodeFacts(f, []);
    if f.ChkBasic() && RoProbe(f) < 0 { return RoProbe(f), p; }
    r := ScanPhandle(f, phandle);
  }

  /** Where the search ends, as an offset. */
  lemma GoalIs(f: Fdt, p: seq<nat>, x: nat)
    requires f.Valid()
    requires match FindPhandle(f.Meaning(), x)
      case Reached(q) => IsPath(f.root, p) && DPath(f.root, p) == q && FirstTok(f.Strings(), Block(f.root), 0, x) == 0 + |Pre(f.root, p)|
      case Missing => FirstTok(f.Strings(), Block(f.root), 0, x) == FirstTok(f.Strings(), Block(f.root), 0 + |Flat(f.root)|, x)
    ensures match FindPhandle(f.Meaning(), x)
      case Reached(q) => NodeOff(f.root, p) == Off(Block(f.root), FirstTok(f.Strings(), Block(f.root), 0, x)) && FirstTok(f.Strings(), Block(f.root), 0, x) >= 0
      case Missing => FirstTok(f.Strings(), Block(f.root), 0, x) == -1
  {
    hide Flat, FlatS, Pre, Post, Enc, Wf, StringsOf, PropsOf, KidsOf, TokProps, Block, FindPhandle, PhandleOf, Mean, DPath;
    WfLaid(f.hdr, f.mem[..], f.root, f.rsv);
    RootTokens(f.root);
    if FindPhandle(f.Meaning(), x).Reached? {
      NodeTokens(f.root, p);
    }
  }

  // ------------------------------------------------------------------ overlay_get_target

  /** Following a path in the items and in the meaning. */
  lemma {:induction false} FollowMeans(t: bytes, it: Item, segs: seq<bytes>)
    requires it.Node?
    ensures match Follow(it, segs)
      case Missing => FollowD(Mean(t, it), segs) == Missing
      case Reached(p) => FollowD(Mean(t, it), segs) == Reached(DPath(it, p))
    decreases |segs|
  {
    hide PropsOf, KidsOf, NameEq;
    if segs != [] {
      var k := KidIdx(it.items, Named(segs[0]));
      KidBoth(t, it.items, segs[0]);
      if k < |it.items| {
        MeanPutStep(t, it.items, k, it.items[k]);
        FollowMeans(t, it.items[k], segs[1..]);
        if Follow(it.items[k], segs[1..]).Reached? {
          var q := Follow(it.items[k], segs[1..]).path;
          assert ([k] + q)[1..] == q;
        }
      }
    }
  }

  /** The C string at index data of a blob: a property value that holds one. */
  method CString(mem: array<byte>, data: nat, ghost v: bytes) returns (s: bytes)
    requires Occurs(mem[..], data, v) && Terminated(v, 0)
    ensures s == StrAt(v, 0)
  {
    ghost var w := StrAt(v, 0);
    StrAtHolds(v, 0);
    assert v[..|w|] == w && v[|w|..|w| + 1] == [0];
    assert v == (w + [0]) + v[|w| + 1..];
    OccursCat(mem[..], data, w + [0], v[|w| + 1..]);
    var n := StrLen(mem, data, w);
    OccursCat(mem[..], data, w, [0]);
    s := mem[data..data + n];
  }

  /** overlay_get_target_phandle: 0 if there is none, NO_PHANDLE if it is malformed. */
  method TargetPhandle(fdto: Fdt, fragment: nat, ghost q: seq<nat>) returns (r: nat)
    requires fdto.Valid() && IsPath(fdto.root, q) && fragment == NodeOff(fdto.root, q)
    ensures r < TWO32
    ensures var v := Lookup(Mean(fdto.Strings(), At(fdto.root, q)).props, TargetName());
      r == if v.None? then 0 else if |v.value| != 4 then NO_PHANDLE else U32(v.value, 0)
  {
    hide StringsOf, Wf, At, Mean, Lookup, NodeOff, U32, Load;
    var data, len := GetProp(fdto, fragment, TargetName(), q);
    if len < 0 { return 0; }
    if len != 4 { return NO_PHANDLE; }
    WordAt(fdto.mem, data, Lookup(Mean(fdto.Strings(), At(fdto.root, q)).props, TargetName()).value);
    if Load(fdto.mem, data) == NO_PHANDLE { return NO_PHANDLE; }
    return Load(fdto.mem, data);
  }

  /** overlay_get_target: the offset of the target in the base tree, or the error. */
  method GetTarget(f: Fdt, fdto: Fdt, fragment: nat, ghost q: seq<nat>) returns (ret: int, ghost p: seq<nat>)
    requires f.Valid() && fdto.Valid() && IsPath(fdto.root, q) && fragment == NodeOff(fdto.root, q)
    requires PathOk(Mean(fdto.Strings(), At(fdto.root, q)).props)
    ensures match TargetOf(f.Meaning(), Mean(fdto.Strings(), At(fdto.root, q)).props)
      case Goal(g) => ret >= 0 && IsPath(f.root, p) && DPath(f.root, p) == g && ret == NodeOff(f.root, p)
      case Fails(e) => ret == -e
  {
    hide StringsOf, Wf, At, Mean, Lookup, NodeOff, U32, Load, FindPhandle, FollowD, Follow, Segs, StrAt, Terminated, IsPath, DPath;
    ghost var ps := Mean(fdto.Strings(), At(fdto.root, q)).props;
    WfLaid(f.hdr, f.mem[..], f.root, f.rsv);
    p := [];
    var pathLen := 0;
    var phandle := TargetPhandle(fdto, fragment, q);
    if phandle == NO_PHANDLE { return -FDT_ERR_BADPHANDLE, p; }
    if phandle == 0 {
      var path;
      path, pathLen := GetProp(fdto, fragment, TargetPathName(), q);
      if pathLen >= 0 {
        ghost var v := Lookup(ps, TargetPathName()).value;
        var s := CString(fdto.mem, path, v);
        ghost var goal;
        ret, goal := PathOffset(f, s);
        FollowMeans(f.Strings(), f.root, Segs(s));
        if goal.Reached? { p := goal.path; }
      } else {
        ret := pathLen;
      }
    } else {
      ret, p := NodeOffsetByPhandle(f, phandle);
    }
    if ret < 0 && pathLen == -FDT_ERR_NOTFOUND {
      ret := -FDT_ERR_BADOVERLAY;
    }
  }
}
