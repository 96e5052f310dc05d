/**
  What merging an overlay node into a base node means: a recursive merge of trees.
 */
module Merge {
  import opened Wrappers
  import opened Bytes
  import opened Meaning
  import opened Walk
  import opened Effects

  function MergeProps(ps: seq<DProp>, os: seq<DProp>): seq<DProp>
    decreases |os|
  {
    if os == [] then ps else MergeProps(SetP(ps, os[0].name, os[0].value), os[1..])
  }

  /** The first child the unit-address rule accepts for name; |kids| if there is none. */
  function FindKidD(kids: seq<DT>, name: bytes): (c: nat)
    ensures c <= |kids|
    ensures c < |kids| ==> NameEq(kids[c].name, name)
    ensures forall i :: 0 <= i < c ==> !NameEq(kids[i].name, name)
  {
    if kids == [] || NameEq(kids[0].name, name) then 0 else 1 + FindKidD(kids[1..], name)
  }

  /** The child o is merged into, or a new first child. */
  function MergeKid(kids: seq<DT>, o: DT): seq<DT>
    decreases o, 1
  {
    var c := FindKidD(kids, o.name);
    if c < |kids| then kids[c := MergeTree(kids[c], o)] else [MergeTree(DT(o.name, [], []), o)] + kids
  }

  function MergeKids(kids: seq<DT>, os: seq<DT>): seq<DT>
    decreases os, 0
  {
    if os == [] then kids else MergeKids(MergeKid(kids, os[0]), os[1..])
  }

  function MergeTree(d: DT, o: DT): DT
    decreases o, 0
  {
    DT(d.name, MergeProps(d.props, o.props), MergeKids(d.kids, o.kids))
  }

  // ------------------------------------------------------------------ space

  /** What a property, and a child, may add to a blob: names and padding included. */
  function PropNeed(o: DProp): nat {
    |o.name| + 13 + TagAlign(|o.value|)
  }

  function PropsNeed(os: seq<DProp>): nat {
    if os == [] then 0 else PropNeed(os[0]) + PropsNeed(os[1..])
  }

  function KidNeed(o: DT): nat
    decreases o, 1
  {
    8 + TagAlign(|o.name| + 1) + TreeNeed(o)
  }

  function KidsNeed(os: seq<DT>): nat
    decreases os, 0
  {
    if os == [] then 0 else KidNeed(os[0]) + KidsNeed(os[1..])
  }

  function TreeNeed(o: DT): nat
    decreases o, 0
  {
    PropsNeed(o.props) + KidsNeed(o.kids)
  }

  lemma {:induction false} PropsNeedCat(a: seq<DProp>, b: seq<DProp>)
    ensures PropsNeed(a + b) == PropsNeed(a) + PropsNeed(b)
  {
    if a == [] {
      assert a + b == b;
    } else {
      PropsNeedCat(a[1..], b);
      assert (a + b)[1..] == a[1..] + b;
    }
  }

  lemma {:induction false} KidsNeedCat(a: seq<DT>, b: seq<DT>)
    ensures KidsNeed(a + b) == KidsNeed(a) + KidsNeed(b)
    decreases |a|
  {
    if a == [] {
      assert a + b == b;
    } else {
      KidsNeedCat(a[1..], b);
      assert (a + b)[1..] == a[1..] + b;
    }
  }

  // ------------------------------------------------------------------ the merge, step by step

  lemma {:induction false} MergePropsSnoc(ps: seq<DProp>, os: seq<DProp>, o: DProp)
    ensures MergeProps(ps, os + [o]) == SetP(MergeProps(ps, os), o.name, o.value)
    decreases os
  {
    if os == [] {
      assert [] + [o] == [o] && [o][1..] == [];
    } else {
      assert (os + [o])[0] == os[0] && (os + [o])[1..] == os[1..] + [o];
      MergePropsSnoc(SetP(ps, os[0].name, os[0].value), os[1..], o);
    }
  }

  lemma {:induction false} MergeKidsSnoc(kids: seq<DT>, os: seq<DT>, o: DT)
    ensures MergeKids(kids, os + [o]) == MergeKid(MergeKids(kids, os), o)
    decreases |os|
  {
    if os == [] {
      assert [] + [o] == [o] && [o][1..] == [];
    } else {
      assert (os + [o])[0] == os[0] && (os + [o])[1..] == os[1..] + [o];
      MergeKidsSnoc(MergeKid(kids, os[0]), os[1..], o);
    }
  }

  // ------------------------------------------------------------------ what the merged node holds

  /** The value of property name, if the node has it. */
  function Lookup(ps: seq<DProp>, name: bytes): Option<bytes> {
    var i := FindD(ps, name);
    if i < |ps| then Some(ps[i].value) else None
  }

  /** The last value a list of properties gives name: with distinct names, its only one. */
  function LastValue(os: seq<DProp>, name: bytes): Option<bytes> {
    if os == [] then None
    else if os[|os| - 1].name == name then Some(os[|os| - 1].value)
    else LastValue(os[..|os| - 1], name)
  }

  /** Setting one property is seen by that name only. */
  lemma SetLookup(ps: seq<DProp>, name: bytes, value: bytes, other: bytes)
    ensures Lookup(SetP(ps, name, value), other) == if other == name then Some(value) else Lookup(ps, other)
  {
    var i, j := FindD(ps, name), FindD(ps, other);
    var r := SetP(ps, name, value);
    if other == name {
      FindDIs(r, name, if i < |ps| then i else 0);
    } else if i < |ps| {
      FindDIs(r, other, j);
    } else {
      FindDIs(r, other, j + 1);
    }
  }

  /** A new property comes first, an old one keeps its place, and so do all others. */
  lemma SetPlaces(ps: seq<DProp>, name: bytes, value: bytes)
    ensures var r, i := SetP(ps, name, value), FindD(ps, name); var shift := if i < |ps| then 0 else 1;
      && |r| == |ps| + shift && r[if i < |ps| then i else 0] == DProp(name, value)
      && forall j :: 0 <= j < |ps| && j != i ==> r[j + shift] == ps[j]
  {
  }

  /** Appending goes on from the value there was, and is seen by that name only. */
  lemma AppendLookup(ps: seq<DProp>, name: bytes, value: bytes, other: bytes)
    ensures var v := Lookup(ps, name);
      Lookup(AppendP(ps, name, value), other) ==
      if other != name then Lookup(ps, other) else Some((if v.Some? then v.value else []) + value)
  {
    hide SetP, AppendP;
    var i := FindD(ps, name);
    AppendIs(ps, name, value);
    SetLookup(ps, name, (if i < |ps| then ps[i].value else []) + value, other);
  }

  lemma AppendIs(ps: seq<DProp>, name: bytes, value: bytes)
    ensures var i := FindD(ps, name); AppendP(ps, name, value) == SetP(ps, name, (if i < |ps| then ps[i].value else []) + value)
  {
    assert [] + value == value;
  }

  /** Deleting takes the first property of that name away; all others keep their order. */
  lemma DelPlaces(ps: seq<DProp>, name: bytes)
    ensures var r, i := DelP(ps, name), FindD(ps, name);
      && |r| == (if i < |ps| then |ps| - 1 else |ps|)
      && (forall j :: 0 <= j < i ==> r[j] == ps[j]) && (forall j :: i <= j < |r| ==> r[j] == ps[j + 1])
  {
    hide FindD;
  }

  /** Other names keep their values, and this one has none any more unless there was a second. */
  lemma DelLookup(ps: seq<DProp>, name: bytes, other: bytes)
    ensures other != name ==> Lookup(DelP(ps, name), other) == Lookup(ps, other)
    ensures (forall j :: FindD(ps, name) < j < |ps| ==> ps[j].name != name) ==> Lookup(DelP(ps, name), name) == None
  {
    hide FindD, DelP;
    var r, i, k := DelP(ps, name), FindD(ps, name), FindD(ps, other);
    DelPlaces(ps, name);
    FirstOf(ps, name);
    FirstOf(ps, other);
    if other != name {
      FindDIs(r, other, if k > i then k - 1 else k);
    }
    if forall j :: i < j < |ps| ==> ps[j].name != name {
      FindDIs(r, name, |r|);
    }
  }

  lemma FirstOf(ps: seq<DProp>, name: bytes)
    ensures var i := FindD(ps, name); i <= |ps| && (i < |ps| ==> ps[i].name == name) && forall j :: 0 <= j < i ==> ps[j].name != name
  {
  }

  /** Overlay properties override, the others stay. */
  lemma {:induction false} MergedProps(ps: seq<DProp>, os: seq<DProp>, name: bytes)
    ensures Lookup(MergeProps(ps, os), name) == if LastValue(os, name).Some? then LastValue(os, name) else Lookup(ps, name)
    decreases |os|
  {
    if os != [] {
      var init, o := os[..|os| - 1], os[|os| - 1];
      assert os == init + [o];
      MergePropsSnoc(ps, init, o);
      SetLookup(MergeProps(ps, init), o.name, o.value, name);
      MergedProps(ps, init, name);
    }
  }

  /** Children keep their names, and no overlay child disappears: the merge never loses a base child. */
  lemma {:induction false} MergedKid(kids: seq<DT>, o: DT)
    ensures var r, c := MergeKid(kids, o), FindKidD(kids, o.name);
      var shift := if c < |kids| then 0 else 1;
      && |r| == |kids| + shift
      && (forall i :: 0 <= i < |kids| && i != c ==> r[i + shift] == kids[i])
      && (if c < |kids| then r[c] == MergeTree(kids[c], o) && r[c].name == kids[c].name
          else r[0] == MergeTree(DT(o.name, [], []), o) && r[0].name == o.name)
  {
    hide MergeTree, FindKidD;
    var c := FindKidD(kids, o.name);
    MergedName(if c < |kids| then kids[c] else DT(o.name, [], []), o);
    if c == |kids| {
      InFront(MergeTree(DT(o.name, [], []), o), kids);
    }
  }

  lemma InFront<X>(x: X, s: seq<X>)
    ensures |[x] + s| == |s| + 1 && ([x] + s)[0] == x && forall i :: 0 <= i < |s| ==> ([x] + s)[i + 1] == s[i]
  {
  }

  lemma MergedName(d: DT, o: DT)
    ensures MergeTree(d, o).name == d.name
  {
  }

  /** A child of the base that no overlay child selects stays as it is. */
  lemma {:induction false} KidStays(kids: seq<DT>, os: seq<DT>, k: DT)
    requires k in kids && forall i :: 0 <= i < |os| ==> !NameEq(k.name, os[i].name)
    ensures k in MergeKids(kids, os)
    decreases |os|
  {
    if os != [] {
      MergedKid(kids, os[0]);
      var i, c := IndexOf(kids, k), FindKidD(kids, os[0].name);
      assert MergeKid(kids, os[0])[if c < |kids| then i else i + 1] == k;
      KidStays(MergeKid(kids, os[0]), os[1..], k);
    }
  }

  function IndexOf(kids: seq<DT>, k: DT): (i: nat)
    requires k in kids
    ensures i < |kids| && kids[i] == k
  {
    if kids[0] == k then 0 else 1 + IndexOf(kids[1..], k)
  }

  /** The child of kids overlay child o goes into: the one its name selects, or an empty one. */
  function Receiver(kids: seq<DT>, o: DT): DT {
    var c := FindKidD(kids, o.name);
    if c < |kids| then kids[c] else DT(o.name, [], [])
  }

  lemma FindKidDIs(kids: seq<DT>, name: bytes, c: nat)
    requires c <= |kids| && (c < |kids| ==> NameEq(kids[c].name, name)) && forall i :: 0 <= i < c ==> !NameEq(kids[i].name, name)
    ensures c == FindKidD(kids, name)
  {
  }

  /** Merging another overlay child first does not change where o goes. */
  lemma ReceiverKept(kids: seq<DT>, x: DT, o: DT)
    requires !NameEq(Receiver(kids, o).name, x.name) && !NameEq(x.name, o.name)
    ensures Receiver(MergeKid(kids, x), o) == Receiver(kids, o)
  {
    hide MergeTree, NameEq, MergeKid;
    var r, c, s := MergeKid(kids, x), FindKidD(kids, o.name), if FindKidD(kids, x.name) < |kids| then 0 else 1;
    MergedKid(kids, x);
    assert forall i :: 0 <= i < |kids| ==> r[i + s].name == kids[i].name;
    forall i | 0 <= i < c + s
      ensures !NameEq(r[i].name, o.name)
    {
      if i >= s {
        assert r[(i - s) + s].name == kids[i - s].name;
      }
    }
    FindKidDIs(r, o.name, c + s);
  }

  /** Every overlay child whose receiver no other overlay child selects ends up merged into it. */
  lemma {:induction false} KidLands(kids: seq<DT>, os: seq<DT>, j: nat)
    requires j < |os|
    requires forall i :: 0 <= i < |os| && i != j ==> !NameEq(Receiver(kids, os[j]).name, os[i].name)
    requires forall i :: 0 <= i < j ==> !NameEq(os[i].name, os[j].name)
    ensures MergeTree(Receiver(kids, os[j]), os[j]) in MergeKids(kids, os)
    decreases |os|
  {
    hide MergeTree, MergeKid, NameEq, FindKidD;
    var r := MergeKid(kids, os[0]);
    MergedKid(kids, os[0]);
    if j == 0 {
      var c := FindKidD(kids, os[0].name);
      assert r[if c < |kids| then c else 0] == MergeTree(Receiver(kids, os[0]), os[0]);
      KidStays(r, os[1..], MergeTree(Receiver(kids, os[0]), os[0]));
    } else {
      ReceiverKept(kids, os[0], os[j]);
      assert os[1..][j - 1] == os[j];
      KidLands(r, os[1..], j - 1);
    }
  }
}
