/**
  What edits do to the meaning of a tree: property lists, and edits confined to one node.
 */
module Effects {
  import opened Bytes
  import opened Tree
  import opened Meaning
  import opened TreeWalk
  import opened Props
  import opened Edit

  // ------------------------------------------------------------------ property lists

  /** The first property called name; |ps| if there is none. */
  function FindD(ps: seq<DProp>, name: bytes): (i: nat)
    ensures i <= |ps|
    ensures i < |ps| ==> ps[i].name == name
    ensures forall j :: 0 <= j < i ==> ps[j].name != name
  {
    if ps == [] || ps[0].name == name then 0 else 1 + FindD(ps[1..], name)
  }

  /** A set property keeps its place; a new one comes first. */
  function SetP(ps: seq<DProp>, name: bytes, value: bytes): seq<DProp> {
    var i := FindD(ps, name);
    if i < |ps| then ps[i := DProp(name, value)] else [DProp(name, value)] + ps
  }

  function AppendP(ps: seq<DProp>, name: bytes, value: bytes): seq<DProp> {
    var i := FindD(ps, name);
    if i < |ps| then ps[i := DProp(name, ps[i].value + value)] else [DProp(name, value)] + ps
  }

  function DelP(ps: seq<DProp>, name: bytes): seq<DProp> {
    var i := FindD(ps, name);
    if i < |ps| then ps[..i] + ps[i + 1..] else ps
  }

  /** The place of property k among the properties. */
  lemma FindBoth(t: bytes, its: seq<Item>, name: bytes)
    ensures var k := FindP(t, its, name);
      FindD(PropsOf(t, its), name) == |PropsOf(t, its[..k])| && (k < |its| <==> FindD(PropsOf(t, its), name) < |PropsOf(t, its)|)
  {
    hide PropsOf, FindP, StrAt;
    var k := FindP(t, its, name);
    Unnamed(t, its[..k], name);
    if k < |its| {
      PropsSplit(t, its, k);
      OneProp(t, its[k]);
      FindDIs(PropsOf(t, its), name, |PropsOf(t, its[..k])|);
    } else {
      assert its[..k] == its;
      FindDIs(PropsOf(t, its), name, |PropsOf(t, its)|);
    }
  }

  lemma {:induction false} Unnamed(t: bytes, its: seq<Item>, name: bytes)
    requires forall i :: 0 <= i < |its| && its[i].Prop? ==> StrAt(t, its[i].nameoff) != name
    ensures forall j :: 0 <= j < |PropsOf(t, its)| ==> PropsOf(t, its)[j].name != name
  {
    hide StrAt;
    if its != [] {
      Unnamed(t, its[1..], name);
    }
  }

  lemma FindDIs(ps: seq<DProp>, name: bytes, i: nat)
    requires i <= |ps| && (i < |ps| ==> ps[i].name == name) && forall j :: 0 <= j < i ==> ps[j].name != name
    ensures i == FindD(ps, name)
  {
  }

  lemma ReplaceProps(t: bytes, n: Item, k: nat, e: nat, ins: seq<Item>)
    requires n.Node? && k <= e <= |n.items|
    ensures PropsOf(t, Replace(n, k, e, ins).items) == PropsOf(t, n.items[..k]) + PropsOf(t, ins) + PropsOf(t, n.items[e..])
    ensures KidsOf(t, Replace(n, k, e, ins).items) == KidsOf(t, n.items[..k]) + KidsOf(t, ins) + KidsOf(t, n.items[e..])
  {
    PropsOfConcat(t, n.items[..k] + ins, n.items[e..]);
    PropsOfConcat(t, n.items[..k], ins);
    KidsOfConcat(t, n.items[..k] + ins, n.items[e..]);
    KidsOfConcat(t, n.items[..k], ins);
  }

  lemma OneProp(t: bytes, it: Item)
    requires it.Prop?
    ensures PropsOf(t, [it]) == [DProp(StrAt(t, it.nameoff), it.value)] && KidsOf(t, [it]) == []
  {
  }

  lemma MidSeq<X>(a: seq<X>, x: X, b: seq<X>, y: X)
    ensures (a + [x] + b)[|a|] == x && (a + [x] + b)[|a| := y] == a + [y] + b
    ensures (a + [x] + b)[..|a|] + (a + [x] + b)[|a| + 1..] == a + [] + b
  {
  }

  /** The parts of a node around its property k. */
  lemma AroundProp(t: bytes, n: Item, k: nat)
    requires n.Node? && k < |n.items| && n.items[k].Prop?
    ensures PropsOf(t, n.items) == PropsOf(t, n.items[..k]) + [DProp(StrAt(t, n.items[k].nameoff), n.items[k].value)] + PropsOf(t, n.items[k + 1..])
    ensures KidsOf(t, n.items) == KidsOf(t, n.items[..k]) + [] + KidsOf(t, n.items[k + 1..])
  {
    ReplaceProps(t, n, k, k + 1, [n.items[k]]);
    assert Replace(n, k, k + 1, [n.items[k]]).items == n.items;
    OneProp(t, n.items[k]);
  }

  /** Replacing the property called name. */
  lemma SetMeans(t: bytes, n: Item, name: bytes, it: Item)
    requires n.Node? && FindP(t, n.items, name) < |n.items| && it.Prop? && StrAt(t, it.nameoff) == name
    ensures var k := FindP(t, n.items, name); var i := FindD(PropsOf(t, n.items), name);
      && i < |PropsOf(t, n.items)| && PropsOf(t, n.items)[i] == DProp(name, n.items[k].value)
      && Mean(t, Replace(n, k, k + 1, [it])) == DT(n.name, PropsOf(t, n.items)[i := DProp(name, it.value)], KidsOf(t, n.items))
  {
    hide PropsOf, KidsOf;
    var k := FindP(t, n.items, name);
    FindBoth(t, n.items, name);
    ReplaceProps(t, n, k, k + 1, [it]);
    AroundProp(t, n, k);
    OneProp(t, it);
    MidSeq(PropsOf(t, n.items[..k]), DProp(name, n.items[k].value), PropsOf(t, n.items[k + 1..]), DProp(name, it.value));
  }

  /** Adding a property in front. */
  lemma AddMeans(t: bytes, n: Item, name: bytes, it: Item)
    requires n.Node? && FindP(t, n.items, name) == |n.items| && it.Prop? && StrAt(t, it.nameoff) == name
    ensures FindD(PropsOf(t, n.items), name) == |PropsOf(t, n.items)|
    ensures Mean(t, Replace(n, 0, 0, [it])) == DT(n.name, [DProp(name, it.value)] + PropsOf(t, n.items), KidsOf(t, n.items))
  {
    FindBoth(t, n.items, name);
    assert n.items[..|n.items|] == n.items && n.items[..0] == [] && n.items[0..] == n.items;
    ReplaceProps(t, n, 0, 0, [it]);
    OneProp(t, it);
  }

  /** Removing the property called name. */
  lemma DelMeans(t: bytes, n: Item, name: bytes, nops: seq<Item>)
    requires n.Node? && FindP(t, n.items, name) < |n.items| && forall i :: 0 <= i < |nops| ==> nops[i] == Nop
    ensures var k := FindP(t, n.items, name);
      Mean(t, Replace(n, k, k + 1, nops)) == DT(n.name, DelP(PropsOf(t, n.items), name), KidsOf(t, n.items))
  {
    hide PropsOf, KidsOf;
    var k := FindP(t, n.items, name);
    FindBoth(t, n.items, name);
    ReplaceProps(t, n, k, k + 1, nops);
    AroundProp(t, n, k);
    NopsMeanNothing(t, nops);
    var x := DProp(name, n.items[k].value);
    MidSeq(PropsOf(t, n.items[..k]), x, PropsOf(t, n.items[k + 1..]), x);
  }

  lemma {:induction false} NopsMeanNothing(t: bytes, nops: seq<Item>)
    requires forall i :: 0 <= i < |nops| ==> nops[i] == Nop
    ensures PropsOf(t, nops) == [] && KidsOf(t, nops) == []
  {
    if nops != [] {
      NopsMeanNothing(t, nops[1..]);
    }
  }

  // ------------------------------------------------------------------ edits of one node

  /** Root r1 differs from r0 at most inside the node at p; strings were at most added. */
  ghost predicate Edited(r0: Item, t0: bytes, r1: Item, t1: bytes, p: seq<nat>) {
    && r0.Node? && r1.Node? && IsPath(r0, p) && IsPath(r1, p)
    && r1 == Put(r0, p, At(r1, p))
    && |t0| <= |t1| && t1[..|t0|] == t0
  }

  /** The node keeps its offset, and the meaning changes at that node only. */
  lemma EditedMeans(r0: Item, t0: bytes, r1: Item, t1: bytes, p: seq<nat>)
    requires Edited(r0, t0, r1, t1, p) && OkItem(t0, r0)
    ensures Pre(r1, p) == Pre(r0, p) && NodeOff(r1, p) == NodeOff(r0, p) && DPath(r1, p) == DPath(r0, p)
    ensures DIsPath(Mean(t0, r0), DPath(r0, p)) && DAt(Mean(t0, r0), DPath(r0, p)) == Mean(t0, At(r0, p))
    ensures Mean(t1, r1) == DPut(Mean(t0, r0), DPath(r0, p), Mean(t1, At(r1, p)))
  {
    var n := At(r1, p);
    assert t1 == t0 + t1[|t0|..];
    OkGrow(t0, t1[|t0|..], r0);
    OkPut(t0, r0, p, r0);
    OkGrow(t0, t1[|t0|..], At(r0, p));
    PutFrame(r0, p, n);
    MeanPut(t1, r0, p, n);
  }

  lemma EditedTrans(r0: Item, t0: bytes, r1: Item, t1: bytes, r2: Item, t2: bytes, p: seq<nat>)
    requires Edited(r0, t0, r1, t1, p) && Edited(r1, t1, r2, t2, p)
    ensures Edited(r0, t0, r2, t2, p)
  {
    PutPut(r0, p, At(r1, p), At(r2, p));
    assert t2[..|t0|] == t2[..|t1|][..|t0|];
  }

  lemma EditedRefl(r: Item, t: bytes, p: seq<nat>)
    requires r.Node? && IsPath(r, p)
    ensures Edited(r, t, r, t, p)
  {
    PutPut(r, p, r, r);
  }

  /** An edit below p + q is an edit below p. */
  lemma EditedUp(r0: Item, t0: bytes, r1: Item, t1: bytes, p: seq<nat>, q: seq<nat>)
    requires IsPath(r0, p) && IsPath(At(r0, p), q) && IsPath(r0, p + q)
    requires Edited(r0, t0, r1, t1, p + q)
    ensures IsPath(r1, p) && Edited(r0, t0, r1, t1, p)
    ensures IsPath(At(r1, p), q) && At(r1, p) == Put(At(r0, p), q, At(At(r1, p), q)) && At(At(r1, p), q) == At(r1, p + q)
  {
    var n := At(r1, p + q);
    PutStep(r0, p, q, n);
    PutFrame(At(r0, p), q, n);
    PutFrame(r0, p, Put(At(r0, p), q, n));
  }

  // ------------------------------------------------------------------ the effect of writing a property

  lemma {:induction false} FindPGrow(t: bytes, x: bytes, its: seq<Item>, name: bytes)
    requires OkItems(t, its)
    ensures FindP(t + x, its, name) == FindP(t, its, name)
    decreases its
  {
    if its != [] {
      assert OkItem(t, its[0]);
      if its[0].Prop? {
        StrAtGrow(t, x, its[0].nameoff);
      }
      FindPGrow(t, x, its[1..], name);
    }
  }

  /** The items a writer of property name replaces: the property itself, or the empty run in front. */
  function SpotOf(t: bytes, its: seq<Item>, name: bytes): (r: (nat, nat))
    ensures r.0 <= r.1 <= |its|
  {
    var k := FindP(t, its, name);
    if k < |its| then (k, k + 1) else (0, 0)
  }

  /** The value property name has, or the empty value. */
  function ValueOf(t: bytes, its: seq<Item>, name: bytes): bytes {
    var k := FindP(t, its, name);
    if k < |its| then its[k].value else []
  }

  /** r1 is r0 with property name of the node at p set to item it. */
  ghost predicate PropSet(r0: Item, t0: bytes, r1: Item, t1: bytes, p: seq<nat>, name: bytes, it: Item) {
    && r0.Node? && IsPath(r0, p) && it.Prop? && StrAt(t1, it.nameoff) == name
    && |t0| <= |t1| && t1[..|t0|] == t0
    && var (k, e) := SpotOf(t0, At(r0, p).items, name);
       r1 == Put(r0, p, Replace(At(r0, p), k, e, [it]))
  }

  lemma PropSetMeans(r0: Item, t0: bytes, r1: Item, t1: bytes, p: seq<nat>, name: bytes, it: Item)
    requires PropSet(r0, t0, r1, t1, p, name, it) && OkItem(t0, r0)
    ensures Edited(r0, t0, r1, t1, p)
    ensures var d := Mean(t0, At(r0, p));
      && Mean(t1, At(r1, p)) == d.(props := SetP(d.props, name, it.value))
      && ValueOf(t0, At(r0, p).items, name) == var i := FindD(d.props, name); if i < |d.props| then d.props[i].value else []
  {
    hide PropsOf, KidsOf, FindP, FindD;
    var n, x := At(r0, p), t1[|t0|..];
    assert t1 == t0 + x;
    OkPut(t0, r0, p, r0);
    FindPGrow(t0, x, n.items, name);
    OkGrow(t0, x, n);
    var (k, e) := SpotOf(t0, n.items, name);
    PutFrame(r0, p, Replace(n, k, e, [it]));
    if FindP(t0, n.items, name) < |n.items| {
      SetMeans(t1, n, name, it);
    } else {
      AddMeans(t1, n, name, it);
    }
  }

  /** Setting the same property again only counts once. */
  lemma PropSetTwice(r0: Item, t0: bytes, r1: Item, t1: bytes, r2: Item, p: seq<nat>, name: bytes, it: Item, it': Item)
    requires PropSet(r0, t0, r1, t1, p, name, it) && it'.Prop? && it'.nameoff == it.nameoff
    requires var k := SpotOf(t0, At(r0, p).items, name).0;
      IsPath(r1, p) && k < |At(r1, p).items| && r2 == Put(r1, p, Replace(At(r1, p), k, k + 1, [it']))
    ensures PropSet(r0, t0, r2, t1, p, name, it')
  {
    var n := At(r0, p);
    var (k, e) := SpotOf(t0, n.items, name);
    var m := Replace(n, k, e, [it]);
    PutFrame(r0, p, m);
    var m' := Replace(m, k, k + 1, [it']);
    assert m.items[..k] == n.items[..k] && m.items[k + 1..] == n.items[e..];
    assert m' == Replace(n, k, e, [it']);
    PutPut(r0, p, m, m');
  }
}
