/**
  What a tree of items means: names instead of string offsets, no NOP tags, no padding.
  Edits of the meaning, and where a path of items lands in it.
 */
module Meaning {
  import opened Bytes
  import opened Tokens
  import opened Tree

  datatype DProp = DProp(name: bytes, value: bytes)
  datatype DT = DT(name: bytes, props: seq<DProp>, kids: seq<DT>)

  // ------------------------------------------------------------------ the strings block

  /** A NUL follows offset off in strings block t. */
  predicate Terminated(t: bytes, off: nat)
    decreases |t| - off
  {
    off < |t| && (t[off] == 0 || Terminated(t, off + 1))
  }

  /** The C string starting at offset off. */
  function StrAt(t: bytes, off: nat): (r: bytes)
    ensures NoNul(r)
    decreases |t| - off
  {
    if off >= |t| || t[off] == 0 then [] else [t[off]] + StrAt(t, off + 1)
  }

  /** s followed by a NUL is stored at off. */
  predicate Holds(t: bytes, off: nat, s: bytes) {
    off + |s| < |t| && t[off..off + |s|] == s && t[off + |s|] == 0
  }

  lemma {:induction false} StrAtHolds(t: bytes, off: nat)
    requires Terminated(t, off)
    ensures Holds(t, off, StrAt(t, off))
    decreases |t| - off
  {
    if t[off] != 0 {
      StrAtHolds(t, off + 1);
      var s := StrAt(t, off + 1);
      assert t[off..off + 1 + |s|] == [t[off]] + t[off + 1..off + 1 + |s|];
    }
  }

  lemma {:induction false} HoldsStrAt(t: bytes, off: nat, s: bytes)
    requires NoNul(s) && Holds(t, off, s)
    ensures Terminated(t, off) && StrAt(t, off) == s
    decreases |s|
  {
    if s != [] {
      var w := t[off..off + |s|];
      assert w[0] == t[off] != 0;
      assert t[off + 1..off + 1 + |s[1..]|] == w[1..];
      HoldsStrAt(t, off + 1, s[1..]);
      assert s == [s[0]] + s[1..];
    }
  }

  /** Appending to the strings block keeps every string. */
  lemma StrAtGrow(t: bytes, x: bytes, off: nat)
    requires Terminated(t, off)
    ensures Terminated(t + x, off) && StrAt(t + x, off) == StrAt(t, off)
  {
    StrAtHolds(t, off);
    var s := StrAt(t, off);
    assert (t + x)[off..off + |s|] == t[off..off + |s|];
    HoldsStrAt(t + x, off, s);
  }

  // ------------------------------------------------------------------ well-formed items

  /** Properties come before subnodes. */
  predicate PropsFirst(its: seq<Item>) {
    forall i, j :: 0 <= i < j < |its| && its[i].Node? ==> !its[j].Prop?
  }

  predicate OkItem(t: bytes, it: Item)
    decreases it
  {
    match it
    case Nop => true
    case Prop(o, v, p) => OkTok(TProp(o, v, p)) && Terminated(t, o)
    case Node(n, p, its) => OkTok(TBegin(n, p)) && PropsFirst(its) && forall k :: 0 <= k < |its| ==> OkItem(t, its[k])
  }

  predicate OkItems(t: bytes, its: seq<Item>) {
    forall k :: 0 <= k < |its| ==> OkItem(t, its[k])
  }

  lemma {:induction false} OkFlat(t: bytes, it: Item)
    requires OkItem(t, it)
    ensures OkToks(Flat(it))
    decreases it, 1
  {
    match it
    case Nop =>
    case Prop(_, _, _) =>
    case Node(n, p, its) => OkFlatS(t, its);
  }

  lemma {:induction false} OkFlatS(t: bytes, its: seq<Item>)
    requires OkItems(t, its)
    ensures OkToks(FlatS(its))
    decreases its, 0
  {
    if its != [] {
      OkFlat(t, its[0]);
      OkFlatS(t, its[1..]);
    }
  }

  // ------------------------------------------------------------------ meaning

  function PropsOf(t: bytes, its: seq<Item>): seq<DProp> {
    if its == [] then []
    else (if its[0].Prop? then [DProp(StrAt(t, its[0].nameoff), its[0].value)] else []) + PropsOf(t, its[1..])
  }

  function KidsOf(t: bytes, its: seq<Item>): seq<DT>
    decreases its, 0
  {
    if its == [] then [] else (if its[0].Node? then [Mean(t, its[0])] else []) + KidsOf(t, its[1..])
  }

  function Mean(t: bytes, it: Item): DT
    requires it.Node?
    decreases it, 1
  {
    DT(it.name, PropsOf(t, it.items), KidsOf(t, it.items))
  }

  lemma {:induction false} PropsOfConcat(t: bytes, a: seq<Item>, b: seq<Item>)
    ensures PropsOf(t, a + b) == PropsOf(t, a) + PropsOf(t, b)
  {
    if a == [] {
      assert a + b == b;
    } else {
      PropsOfConcat(t, a[1..], b);
      assert (a + b)[0] == a[0] && (a + b)[1..] == a[1..] + b;
      Assoc(if a[0].Prop? then [DProp(StrAt(t, a[0].nameoff), a[0].value)] else [], PropsOf(t, a[1..]), PropsOf(t, b));
    }
  }

  lemma {:induction false} KidsOfConcat(t: bytes, a: seq<Item>, b: seq<Item>)
    ensures KidsOf(t, a + b) == KidsOf(t, a) + KidsOf(t, b)
  {
    if a == [] {
      assert a + b == b;
    } else {
      KidsOfConcat(t, a[1..], b);
      assert (a + b)[0] == a[0] && (a + b)[1..] == a[1..] + b;
      Assoc(if a[0].Node? then [Mean(t, a[0])] else [], KidsOf(t, a[1..]), KidsOf(t, b));
    }
  }

  lemma KidsSplit(t: bytes, its: seq<Item>, k: nat)
    requires k < |its|
    ensures KidsOf(t, its) == KidsOf(t, its[..k]) + KidsOf(t, [its[k]]) + KidsOf(t, its[k + 1..])
  {
    assert its == its[..k] + [its[k]] + its[k + 1..];
    KidsOfConcat(t, its[..k] + [its[k]], its[k + 1..]);
    KidsOfConcat(t, its[..k], [its[k]]);
  }

  lemma PropsSplit(t: bytes, its: seq<Item>, k: nat)
    requires k < |its|
    ensures PropsOf(t, its) == PropsOf(t, its[..k]) + PropsOf(t, [its[k]]) + PropsOf(t, its[k + 1..])
  {
    assert its == its[..k] + [its[k]] + its[k + 1..];
    PropsOfConcat(t, its[..k] + [its[k]], its[k + 1..]);
    PropsOfConcat(t, its[..k], [its[k]]);
  }

  /** A longer strings block gives every item the same meaning. */
  lemma {:induction false} OkGrow(t: bytes, x: bytes, it: Item)
    requires OkItem(t, it)
    ensures OkItem(t + x, it)
    ensures it.Node? ==> Mean(t + x, it) == Mean(t, it)
    decreases it, 1
  {
    match it
    case Nop =>
    case Prop(o, _, _) => StrAtGrow(t, x, o);
    case Node(n, p, its) => OkGrowS(t, x, its);
  }

  lemma {:induction false} OkGrowS(t: bytes, x: bytes, its: seq<Item>)
    requires OkItems(t, its)
    ensures OkItems(t + x, its)
    ensures PropsOf(t + x, its) == PropsOf(t, its) && KidsOf(t + x, its) == KidsOf(t, its)
    decreases its, 0
  {
    if its != [] {
      OkGrow(t, x, its[0]);
      OkGrowS(t, x, its[1..]);
      if its[0].Prop? {
        StrAtGrow(t, x, its[0].nameoff);
      }
      assert forall k :: 1 <= k < |its| ==> its[k] == its[1..][k - 1];
    }
  }

  // ------------------------------------------------------------------ paths in the meaning

  predicate DIsPath(d: DT, q: seq<nat>)
    decreases q
  {
    q == [] || (q[0] < |d.kids| && DIsPath(d.kids[q[0]], q[1..]))
  }

  function DAt(d: DT, q: seq<nat>): DT
    requires DIsPath(d, q)
    decreases q
  {
    if q == [] then d else DAt(d.kids[q[0]], q[1..])
  }

  function DPut(d: DT, q: seq<nat>, n: DT): DT
    requires DIsPath(d, q)
    decreases q
  {
    if q == [] then n else d.(kids := d.kids[q[0] := DPut(d.kids[q[0]], q[1..], n)])
  }

  function Nodes(its: seq<Item>): nat {
    if its == [] then 0 else (if its[0].Node? then 1 else 0) + Nodes(its[1..])
  }

  lemma {:induction false} NodesKids(t: bytes, its: seq<Item>)
    ensures |KidsOf(t, its)| == Nodes(its)
  {
    if its != [] {
      NodesKids(t, its[1..]);
    }
  }

  /** The path of p among child nodes only. */
  function DPath(it: Item, p: seq<nat>): seq<nat>
    requires IsPath(it, p)
    decreases p
  {
    if p == [] then [] else [Nodes(it.items[..p[0]])] + DPath(it.items[p[0]], p[1..])
  }

  /** Replacing a node of the tree replaces that node of its meaning and nothing else. */
  lemma {:induction false} MeanPut(t: bytes, it: Item, p: seq<nat>, n: Item)
    requires IsPath(it, p) && n.Node?
    ensures DIsPath(Mean(t, it), DPath(it, p)) && DAt(Mean(t, it), DPath(it, p)) == Mean(t, At(it, p))
    ensures Mean(t, Put(it, p, n)) == DPut(Mean(t, it), DPath(it, p), Mean(t, n))
    ensures IsPath(Put(it, p, n), p) && DPath(Put(it, p, n), p) == DPath(it, p)
    decreases p
  {
    if p != [] {
      var k, r := p[0], Put(it, p, n);
      MeanPut(t, it.items[k], p[1..], n);
      MeanPutStep(t, it.items, k, r.items[k]);
      assert r.items[..k] == it.items[..k];
    }
  }

  lemma SingleNode(t: bytes, n: Item)
    requires n.Node?
    ensures KidsOf(t, [n]) == [Mean(t, n)] && PropsOf(t, [n]) == []
  {
    hide Mean;
  }

  lemma SeqPut<X>(a: seq<X>, x: X, y: X, b: seq<X>)
    ensures |a| < |a + [x] + b| && (a + [x] + b)[|a|] == x && (a + [x] + b)[|a| := y] == a + [y] + b
  {
  }

  lemma MeanPutStep(t: bytes, its: seq<Item>, k: nat, n: Item)
    requires k < |its| && its[k].Node? && n.Node?
    ensures var c := Nodes(its[..k]);
      c < |KidsOf(t, its)| && KidsOf(t, its)[c] == Mean(t, its[k]) &&
      KidsOf(t, its[k := n]) == KidsOf(t, its)[c := Mean(t, n)]
    ensures PropsOf(t, its[k := n]) == PropsOf(t, its)
  {
    hide Mean, KidsOf, PropsOf;
    KidsSplit(t, its, k);
    KidsSplit(t, its[k := n], k);
    PropsSplit(t, its, k);
    PropsSplit(t, its[k := n], k);
    NodesKids(t, its[..k]);
    assert its[k := n][..k] == its[..k] && its[k := n][k + 1..] == its[k + 1..];
    SingleNode(t, n);
    SingleNode(t, its[k]);
    SeqPut(KidsOf(t, its[..k]), Mean(t, its[k]), Mean(t, n), KidsOf(t, its[k + 1..]));
  }

  lemma {:induction false} OkPut(t: bytes, it: Item, p: seq<nat>, n: Item)
    requires OkItem(t, it) && IsPath(it, p) && n.Node? && OkItem(t, n)
    ensures OkItem(t, At(it, p)) && OkItem(t, Put(it, p, n))
    decreases p
  {
    if p != [] {
      var k := p[0];
      OkPut(t, it.items[k], p[1..], n);
      var r := Put(it, p, n);
      forall i | 0 <= i < |r.items|
        ensures OkItem(t, r.items[i])
      {
        assert i != k ==> r.items[i] == it.items[i];
      }
    }
  }
}
