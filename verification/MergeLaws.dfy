/**
  What a merged tree holds, node by node: a node of the overlay is found in the result by the names
  that lead to it, a node of the base keeps its place counted from the end of every list of children,
  and there are no other nodes.
 */
module MergeLaws {
  import opened Wrappers
  import opened Bytes
  import opened Meaning
  import opened Walk
  import opened Merge
  import opened Paths
  import opened OverlayTarget
  import opened OverlayMerge

  // ------------------------------------------------------------------ the ways to a node

  /** No two of these nodes answer to each other's names. */
  ghost predicate Distinct(os: seq<DT>) {
    forall i, j :: 0 <= i < |os| && 0 <= j < |os| && i != j ==> !NameEq(os[i].name, os[j].name)
  }

  /** The nodes among which the way to the node at r turns are distinct. */
  ghost predicate DistinctTo(o: DT, r: seq<nat>)
    requires DIsPath(o, r)
    decreases r
  {
    r != [] ==> Distinct(o.kids) && DistinctTo(o.kids[r[0]], r[1..])
  }

  ghost predicate DistinctAll(o: DT)
    decreases o
  {
    Distinct(o.kids) && forall i :: 0 <= i < |o.kids| ==> DistinctAll(o.kids[i])
  }

  lemma {:induction false} DistinctEvery(o: DT, r: seq<nat>)
    requires DistinctAll(o) && DIsPath(o, r)
    ensures DistinctTo(o, r)
    decreases r
  {
    if r != [] {
      DistinctEvery(o.kids[r[0]], r[1..]);
    }
  }

  /** The names on the way from o to its node at r. */
  function NamesTo(o: DT, r: seq<nat>): (s: seq<bytes>)
    requires DIsPath(o, r)
    ensures |s| == |r|
    decreases r
  {
    if r == [] then [] else [o.kids[r[0]].name] + NamesTo(o.kids[r[0]], r[1..])
  }

  /** The value of a property of the node some names lead to. */
  function ValueAlong(d: DT, names: seq<bytes>, name: bytes): Option<bytes> {
    match FollowD(d, names)
    case Missing => None
    case Reached(q) => Lookup(DAt(d, q).props, name)
  }

  lemma FollowName(d: DT, n: bytes, rest: seq<bytes>)
    ensures var c := FindKidD(d.kids, n);
      && (c == |d.kids| ==> FollowD(d, [n] + rest) == Missing)
      && (c < |d.kids| ==> match FollowD(d.kids[c], rest)
            case Missing => FollowD(d, [n] + rest) == Missing
            case Reached(q) => FollowD(d, [n] + rest) == Reached([c] + q) && DIsPath(d, [c] + q) && DAt(d, [c] + q) == DAt(d.kids[c], q))
  {
    assert ([n] + rest)[1..] == rest;
    var c := FindKidD(d.kids, n);
    if c < |d.kids| && FollowD(d.kids[c], rest).Reached? {
      var q := FollowD(d.kids[c], rest).path;
      assert ([c] + q)[1..] == q;
    }
  }

  // ------------------------------------------------------------------ the child a name selects

  /** How many children were added in front. */
  function Added(kids: seq<DT>, r: seq<DT>): int {
    |r| - |kids|
  }

  /** Merging one overlay child: at most one child in front, and every base child keeps its name. */
  lemma KidNames(kids: seq<DT>, x: DT)
    ensures var r := MergeKid(kids, x); var s := Added(kids, r);
      && 0 <= s <= 1 && (s == 1 ==> r[0].name == x.name)
      && forall i :: 0 <= i < |kids| ==> r[s + i].name == kids[i].name && (i != FindKidD(kids, x.name) ==> r[s + i] == kids[i])
  {
    hide MergeTree, MergeKid, FindKidD;
    var r, c := MergeKid(kids, x), FindKidD(kids, x.name);
    var s := Added(kids, r);
    MergedKid(kids, x);
    forall i | 0 <= i < |kids|
      ensures r[s + i].name == kids[i].name && (i != c ==> r[s + i] == kids[i])
    {
      assert i != c ==> r[i + s] == kids[i];
    }
  }

  lemma FoundShifted(kids: seq<DT>, r: seq<DT>, s: nat, n: bytes)
    requires |r| == |kids| + s && forall i :: 0 <= i < |kids| ==> r[s + i].name == kids[i].name
    requires forall i :: 0 <= i < s ==> !NameEq(r[i].name, n)
    ensures FindKidD(r, n) == s + FindKidD(kids, n)
  {
    hide NameEq;
    var c := FindKidD(kids, n);
    forall i | 0 <= i < s + c
      ensures !NameEq(r[i].name, n)
    {
      if i >= s {
        assert r[s + (i - s)].name == kids[i - s].name;
      }
    }
    assert c < |kids| ==> r[s + c].name == kids[c].name;
    FindKidDIs(r, n, s + c);
  }

  /** Merging another overlay child does not change what a name selects, and keeps it as it is. */
  lemma SelectedKept(kids: seq<DT>, x: DT, n: bytes)
    requires !NameEq(x.name, n)
    requires var c := FindKidD(kids, n); c < |kids| ==> !NameEq(kids[c].name, x.name)
    ensures var r, c := MergeKid(kids, x), FindKidD(kids, n); var s := Added(kids, r);
      && 0 <= s && FindKidD(r, n) == c + s && (c < |kids| ==> r[c + s] == kids[c])
  {
    hide MergeTree, NameEq, MergeKid, FindKidD;
    var r, c := MergeKid(kids, x), FindKidD(kids, n);
    var s := Added(kids, r);
    KidNames(kids, x);
    FoundShifted(kids, r, s, n);
    SelectedAccepted(kids, x.name);
    if c < |kids| {
      assert r[s + c].name == kids[c].name;
    }
  }

  lemma {:induction false} SelectedStays(kids: seq<DT>, os: seq<DT>, n: bytes)
    requires var c := FindKidD(kids, n); c < |kids| && forall i :: 0 <= i < |os| ==> !NameEq(kids[c].name, os[i].name)
    requires forall i :: 0 <= i < |os| ==> !NameEq(os[i].name, n)
    ensures var r, c := MergeKids(kids, os), FindKidD(kids, n); var s := Added(kids, r);
      && 0 <= s && FindKidD(r, n) == c + s && c + s < |r| && r[c + s] == kids[c]
    decreases |os|
  {
    hide MergeTree, MergeKid, NameEq, FindKidD;
    if os != [] {
      SelectedKept(kids, os[0], n);
      SelectedStays(MergeKid(kids, os[0]), os[1..], n);
    }
  }

  lemma AnswersOnce(os: seq<DT>, i: nat, j: nat, name: bytes)
    requires Distinct(os) && i < |os| && j < |os| && i != j && NameEq(name, os[i].name)
    ensures !NameEq(name, os[j].name)
  {
    hide NameEq;
    if NameEq(name, os[j].name) {
      AnswersTwice(name, os[i].name, os[j].name);
    }
  }

  lemma OwnName(name: bytes)
    ensures NameEq(name, name)
  {
  }

  /** What the name of overlay child x selects, once x is merged. */
  lemma Landed(kids: seq<DT>, x: DT)
    ensures var r, c := MergeKid(kids, x), FindKidD(kids, x.name); var s := Added(kids, r);
      && (if c < |kids| then s == 0 && FindKidD(r, x.name) == c else s == 1 && FindKidD(r, x.name) == 0)
      && |r| > 0 && FindKidD(r, x.name) < |r| && r[FindKidD(r, x.name)] == MergeTree(Receiver(kids, x), x)
      && r[FindKidD(r, x.name)].name == Receiver(kids, x).name && NameEq(Receiver(kids, x).name, x.name)
  {
    hide MergeTree, NameEq, MergeKid;
    var r, c := MergeKid(kids, x), FindKidD(kids, x.name);
    MergedKid(kids, x);
    OwnName(x.name);
    if c < |kids| {
      forall i | 0 <= i < c
        ensures !NameEq(r[i].name, x.name)
      {
        assert r[i + 0] == kids[i];
      }
      FindKidDIs(r, x.name, c);
    } else {
      FindKidDIs(r, x.name, 0);
    }
  }

  /** Among distinct overlay children each ends up where its name leads, merged into what it selected before. */
  lemma {:induction false} KidFound(kids: seq<DT>, os: seq<DT>, j: nat)
    requires Distinct(os) && j < |os|
    ensures var r, c, c' := MergeKids(kids, os), FindKidD(kids, os[j].name), FindKidD(MergeKids(kids, os), os[j].name);
      && c' < |r| && r[c'] == MergeTree(Receiver(kids, os[j]), os[j]) && 0 <= Added(kids, r)
      && (if c < |kids| then c' == c + Added(kids, r) else c' < Added(kids, r))
    decreases |os|
  {
    hide MergeTree, MergeKid, NameEq, FindKidD;
    var r := MergeKid(kids, os[0]);
    Landed(kids, os[0]);
    var n := os[j].name;
    if j == 0 {
      forall i | 0 <= i < |os[1..]|
        ensures !NameEq(r[FindKidD(r, n)].name, os[1..][i].name) && !NameEq(os[1..][i].name, n)
      {
        AnswersOnce(os, 0, i + 1, Receiver(kids, os[0]).name);
      }
      SelectedStays(r, os[1..], n);
    } else {
      var c := FindKidD(kids, n);
      if c < |kids| {
        SelectedAccepted(kids, n);
        AnswersOnce(os, j, 0, kids[c].name);
      }
      SelectedKept(kids, os[0], n);
      SelectedLeast(kids, n);
      SelectedLeast(r, n);
      assert os[1..][j - 1] == os[j];
      KidFound(r, os[1..], j - 1);
    }
  }

  lemma SelectedAccepted(kids: seq<DT>, n: bytes)
    ensures var c := FindKidD(kids, n); c < |kids| ==> NameEq(kids[c].name, n)
  {
  }

  lemma SelectedLeast(kids: seq<DT>, n: bytes)
    ensures FindKidD(kids, n) <= |kids|
  {
  }

  // ------------------------------------------------------------------ the nodes of the overlay

  /**
    Every node of the overlay is found in the result by its names.  It has the values the overlay
    gives it, and otherwise those the base had in the node these names led to.
   */
  lemma {:induction false} OverlayNode(d: DT, o: DT, r: seq<nat>, name: bytes)
    requires DIsPath(o, r) && DistinctTo(o, r)
    ensures var names, m := NamesTo(o, r), MergeTree(d, o);
      && FollowD(m, names).Reached?
      && ValueAlong(m, names, name) == (if LastValue(DAt(o, r).props, name).Some? then LastValue(DAt(o, r).props, name) else ValueAlong(d, names, name))
    decreases r
  {
    hide MergeProps, NameEq, FindKidD, Lookup, LastValue;
    if r == [] {
      MergedProps(d.props, o.props, name);
    } else {
      var x, rest, m := o.kids[r[0]], r[1..], MergeTree(d, o);
      var e := Receiver(d.kids, x);
      KidFound(d.kids, o.kids, r[0]);
      OverlayNode(e, x, rest, name);
      FollowName(m, x.name, NamesTo(x, rest));
      FollowName(d, x.name, NamesTo(x, rest));
      SelectedLeast(d.kids, x.name);
      if FindKidD(d.kids, x.name) == |d.kids| {
        EmptyNode(x.name, NamesTo(x, rest), name);
      }
    }
  }

  lemma EmptyNode(n: bytes, names: seq<bytes>, name: bytes)
    ensures ValueAlong(DT(n, [], []), names, name) == None
  {
  }

  // ------------------------------------------------------------------ the nodes of the base

  /** Children at q in d and at p in m have the same place in their lists, counted from the end. */
  predicate SamePlace(d: DT, q: seq<nat>, m: DT, p: seq<nat>)
    decreases q
  {
    |q| == |p| && (q != [] ==> q[0] < |d.kids| && p[0] < |m.kids| && |d.kids| - q[0] == |m.kids| - p[0] && SamePlace(d.kids[q[0]], q[1..], m.kids[p[0]], p[1..]))
  }

  /** m has all the nodes of d, with their names, each list of children being the end of one of m. */
  ghost predicate Extends(d: DT, m: DT)
    decreases d
  {
    && m.name == d.name && |m.kids| >= |d.kids|
    && forall i :: 0 <= i < |d.kids| ==> Extends(d.kids[i], m.kids[|m.kids| - |d.kids| + i])
  }

  lemma {:induction false} ExtendsSelf(d: DT)
    ensures Extends(d, d)
    decreases d
  {
    forall i | 0 <= i < |d.kids|
      ensures Extends(d.kids[i], d.kids[|d.kids| - |d.kids| + i])
    {
      ExtendsSelf(d.kids[i]);
    }
  }

  lemma {:induction false} ExtendsTrans(a: DT, b: DT, c: DT)
    requires Extends(a, b) && Extends(b, c)
    ensures Extends(a, c)
    decreases a
  {
    forall i | 0 <= i < |a.kids|
      ensures Extends(a.kids[i], c.kids[|c.kids| - |a.kids| + i])
    {
      var k := |b.kids| - |a.kids| + i;
      assert |c.kids| - |b.kids| + k == |c.kids| - |a.kids| + i;
      ExtendsTrans(a.kids[i], b.kids[k], c.kids[|c.kids| - |b.kids| + k]);
    }
  }

  ghost predicate ExtendsKids(ks: seq<DT>, r: seq<DT>) {
    |r| >= |ks| && forall i :: 0 <= i < |ks| ==> Extends(ks[i], r[|r| - |ks| + i])
  }

  /** The merge takes no node of the base away, renames none and keeps their order. */
  lemma {:induction false} MergeExtends(d: DT, o: DT)
    ensures Extends(d, MergeTree(d, o))
    decreases o, 2
  {
    KidsExtend(d.kids, o.kids);
  }

  lemma KidsExtendSelf(kids: seq<DT>)
    ensures ExtendsKids(kids, kids)
  {
    hide Extends;
    forall i | 0 <= i < |kids|
      ensures Extends(kids[i], kids[|kids| - |kids| + i])
    {
      ExtendsSelf(kids[i]);
    }
  }

  lemma KidsExtendTrans(a: seq<DT>, b: seq<DT>, c: seq<DT>)
    requires ExtendsKids(a, b) && ExtendsKids(b, c)
    ensures ExtendsKids(a, c)
  {
    hide Extends;
    forall i | 0 <= i < |a|
      ensures Extends(a[i], c[|c| - |a| + i])
    {
      var k := |b| - |a| + i;
      assert |c| - |b| + k == |c| - |a| + i;
      ExtendsTrans(a[i], b[k], c[|c| - |b| + k]);
    }
  }

  lemma {:induction false} KidsExtend(kids: seq<DT>, os: seq<DT>)
    ensures ExtendsKids(kids, MergeKids(kids, os))
    decreases os, 1
  {
    hide Extends, MergeTree, MergeKid, ExtendsKids;
    if os == [] {
      KidsExtendSelf(kids);
    } else {
      KidExtends(kids, os[0]);
      KidsExtend(MergeKid(kids, os[0]), os[1..]);
      KidsExtendTrans(kids, MergeKid(kids, os[0]), MergeKids(kids, os));
    }
  }

  lemma {:induction false} KidExtends(kids: seq<DT>, x: DT)
    ensures ExtendsKids(kids, MergeKid(kids, x))
    decreases x, 3
  {
    hide Extends, MergeTree, FindKidD, MergeKid;
    var r, c := MergeKid(kids, x), FindKidD(kids, x.name);
    SelectedLeast(kids, x.name);
    MergedKid(kids, x);
    if c < |kids| {
      MergeExtends(kids[c], x);
    }
    forall i | 0 <= i < |kids|
      ensures Extends(kids[i], r[|r| - |kids| + i])
    {
      if i != c {
        assert r[i + (|r| - |kids|)] == kids[i];
        ExtendsSelf(kids[i]);
      }
    }
  }

  /** No names of nodes of the overlay lead to the node of the base at q. */
  ghost predicate Untouched(d: DT, o: DT, q: seq<nat>) {
    forall r :: DIsPath(o, r) ==> FollowD(d, NamesTo(o, r)) != Reached(q)
  }

  /** Names that lead to the place of a base node lead to it in the base. */
  lemma {:induction false} PlaceSelected(d: DT, m: DT, q: seq<nat>, p: seq<nat>, names: seq<bytes>)
    requires Extends(d, m) && SamePlace(d, q, m, p) && FollowD(m, names) == Reached(p)
    ensures FollowD(d, names) == Reached(q)
    decreases names
  {
    hide NameEq, Extends, FindKidD, FollowD, SamePlace;
    if names == [] {
      NowhereToGo(d);
      NowhereToGo(m);
      PlaceParts(d, q, m, p);
    } else {
      var n, rest := names[0], names[1..];
      assert names == [n] + rest;
      FollowName(m, n, rest);
      FollowName(d, n, rest);
      SelectedLeast(m.kids, n);
      var c := FindKidD(m.kids, n);
      assert p[0] == c && p == [c] + p[1..];
      PlaceParts(d, q, m, p);
      var k := q[0];
      ExtendsParts(d, m, k, c);
      PlaceFirst(d.kids, m.kids, n);
      PlaceSelected(d.kids[k], m.kids[c], q[1..], p[1..], rest);
      assert q == [k] + q[1..];
    }
  }

  lemma NowhereToGo(d: DT)
    ensures FollowD(d, []) == Reached([])
  {
  }

  lemma PlaceParts(d: DT, q: seq<nat>, m: DT, p: seq<nat>)
    requires SamePlace(d, q, m, p)
    ensures |q| == |p|
    ensures q != [] ==> q[0] < |d.kids| && p[0] < |m.kids| && |d.kids| - q[0] == |m.kids| - p[0] && SamePlace(d.kids[q[0]], q[1..], m.kids[p[0]], p[1..])
  {
  }

  lemma ExtendsParts(d: DT, m: DT, i: nat, k: nat)
    requires Extends(d, m) && i < |d.kids| && k < |m.kids| && |d.kids| - i == |m.kids| - k
    ensures Extends(d.kids[i], m.kids[k]) && ExtendsKids(d.kids, m.kids)
  {
    assert m.kids[|m.kids| - |d.kids| + i] == m.kids[k];
  }

  lemma PlaceFirst(kids: seq<DT>, r: seq<DT>, n: bytes)
    requires ExtendsKids(kids, r) && |r| - |kids| <= FindKidD(r, n)
    ensures FindKidD(kids, n) == FindKidD(r, n) - (|r| - |kids|)
  {
    hide NameEq, Extends;
    var c, s := FindKidD(r, n), |r| - |kids|;
    forall i | 0 <= i < |kids|
      ensures r[s + i].name == kids[i].name
    {
      ExtendsName(kids[i], r[s + i]);
    }
    SameAccepted(kids, r, s, c - s, n);
    FindKidDIs(kids, n, c - s);
  }

  lemma ExtendsName(d: DT, m: DT)
    requires Extends(d, m)
    ensures m.name == d.name
  {
  }

  lemma SameAccepted(kids: seq<DT>, r: seq<DT>, s: nat, c: nat, n: bytes)
    requires |r| == |kids| + s && c <= |kids| && s + c == FindKidD(r, n) && forall i :: 0 <= i < |kids| ==> r[s + i].name == kids[i].name
    ensures (c < |kids| ==> NameEq(kids[c].name, n)) && forall i :: 0 <= i < c ==> !NameEq(kids[i].name, n)
  {
    hide NameEq;
    forall i | 0 <= i < c
      ensures !NameEq(kids[i].name, n)
    {
      assert r[s + i].name == kids[i].name;
    }
    assert c < |kids| ==> r[s + c].name == kids[c].name;
  }

  lemma {:induction false} SamePlaceTrans(a: DT, p: seq<nat>, b: DT, q: seq<nat>, c: DT, r: seq<nat>)
    requires SamePlace(a, p, b, q) && SamePlace(b, q, c, r)
    ensures SamePlace(a, p, c, r)
    decreases p
  {
    if p != [] {
      SamePlaceTrans(a.kids[p[0]], p[1..], b.kids[q[0]], q[1..], c.kids[r[0]], r[1..]);
    }
  }

  lemma {:induction false} SamePlaceSelf(a: DT, p: seq<nat>)
    requires DIsPath(a, p)
    ensures SamePlace(a, p, a, p)
    decreases p
  {
    if p != [] {
      SamePlaceSelf(a.kids[p[0]], p[1..]);
    }
  }

  lemma {:induction false} PlaceIsPath(a: DT, p: seq<nat>, b: DT, q: seq<nat>)
    requires SamePlace(a, p, b, q)
    ensures DIsPath(a, p) && DIsPath(b, q)
    decreases p
  {
    if p != [] {
      PlaceIsPath(a.kids[p[0]], p[1..], b.kids[q[0]], q[1..]);
    }
  }

  /** What stays untouched by one overlay node while another is merged. */
  lemma StillUntouched(d: DT, m: DT, o: DT, q: seq<nat>, p: seq<nat>)
    requires Extends(d, m) && SamePlace(d, q, m, p) && Untouched(d, o, q)
    ensures Untouched(m, o, p)
  {
    hide Extends, SamePlace, FollowD;
    forall r | DIsPath(o, r)
      ensures FollowD(m, NamesTo(o, r)) != Reached(p)
    {
      if FollowD(m, NamesTo(o, r)) == Reached(p) {
        PlaceSelected(d, m, q, p, NamesTo(o, r));
      }
    }
  }

  /** Below a child the overlay's child x is merged into. */
  lemma UntouchedBelow(d: DT, o: DT, q: seq<nat>, j: nat)
    requires DIsPath(d, q) && q != [] && Untouched(d, o, q) && j < |o.kids| && FindKidD(d.kids, o.kids[j].name) == q[0]
    ensures Untouched(d.kids[q[0]], o.kids[j], q[1..])
  {
    hide FindKidD, FollowD;
    var x := o.kids[j];
    forall r | DIsPath(x, r)
      ensures FollowD(d.kids[q[0]], NamesTo(x, r)) != Reached(q[1..])
    {
      PathBelow(o, j, r);
      FollowName(d, x.name, NamesTo(x, r));
      assert q == [q[0]] + q[1..];
    }
  }

  lemma PathBelow(o: DT, j: nat, r: seq<nat>)
    requires j < |o.kids| && DIsPath(o.kids[j], r)
    ensures DIsPath(o, [j] + r) && NamesTo(o, [j] + r) == [o.kids[j].name] + NamesTo(o.kids[j], r)
  {
    assert ([j] + r)[1..] == r;
  }

  /** The node at p in m has the place, the name and the properties of the one at q in d. */
  ghost predicate Same(d: DT, q: seq<nat>, m: DT, p: seq<nat>) {
    && DIsPath(d, q) && DIsPath(m, p) && SamePlace(d, q, m, p)
    && DAt(m, p).name == DAt(d, q).name && DAt(m, p).props == DAt(d, q).props
  }

  lemma SameSelf(d: DT, q: seq<nat>)
    requires DIsPath(d, q)
    ensures Same(d, q, d, q)
  {
    SamePlaceSelf(d, q);
  }

  lemma SameTrans(a: DT, p: seq<nat>, b: DT, q: seq<nat>, c: DT, r: seq<nat>)
    requires Same(a, p, b, q) && Same(b, q, c, r)
    ensures Same(a, p, c, r)
  {
    hide DAt, DIsPath, SamePlace;
    SamePlaceTrans(a, p, b, q, c, r);
  }

  /** A node of the base that no names of the overlay lead to keeps its place, its name and its properties. */
  lemma {:induction false} BaseNode(d: DT, o: DT, q: seq<nat>) returns (p: seq<nat>)
    requires DIsPath(d, q) && Untouched(d, o, q)
    ensures Same(d, q, MergeTree(d, o), p)
    decreases o, 2
  {
    hide MergeProps, MergeKids, FindKidD;
    assert DIsPath(o, []) && FollowD(d, NamesTo(o, [])) == Reached([]);
    assert q != [];
    forall j | 0 <= j < |o.kids| && FindKidD(d.kids, o.kids[j].name) == q[0]
      ensures Untouched(d.kids[q[0]], o.kids[j], q[1..])
    {
      UntouchedBelow(d, o, q, j);
    }
    var k, p' := BaseKid(d.kids, o.kids, q[0], q[1..]);
    p := [k] + p';
    assert p[1..] == p';
  }

  lemma {:induction false} BaseKid(kids: seq<DT>, os: seq<DT>, i: nat, q: seq<nat>) returns (k: nat, p: seq<nat>)
    requires i < |kids| && DIsPath(kids[i], q)
    requires forall j :: 0 <= j < |os| && FindKidD(kids, os[j].name) == i ==> Untouched(kids[i], os[j], q)
    ensures var r := MergeKids(kids, os); k < |r| && |r| - k == |kids| - i && Same(kids[i], q, r[k], p)
    decreases os, 1
  {
    hide MergeTree, MergeKid, FindKidD, Untouched, FollowD, Same;
    if os == [] {
      k, p := i, q;
      SameSelf(kids[i], q);
    } else {
      var r := MergeKid(kids, os[0]);
      var h, q1 := BaseStep(kids, os[0], i, q);
      NextUntouched(kids, os, i, q, h, q1);
      SameFacts(kids[i], q, r[h], q1);
      k, p := BaseKid(r, os[1..], h, q1);
      SameTrans(kids[i], q, r[h], q1, MergeKids(kids, os)[k], p);
    }
  }

  lemma SameFacts(d: DT, q: seq<nat>, m: DT, p: seq<nat>)
    requires Same(d, q, m, p)
    ensures DIsPath(d, q) && DIsPath(m, p) && SamePlace(d, q, m, p)
  {
  }

  /** The other overlay children leave the node alone where it is now. */
  lemma NextUntouched(kids: seq<DT>, os: seq<DT>, i: nat, q: seq<nat>, h: nat, q1: seq<nat>)
    requires os != [] && i < |kids| && forall j :: 0 <= j < |os| && FindKidD(kids, os[j].name) == i ==> Untouched(kids[i], os[j], q)
    requires var r := MergeKid(kids, os[0]); h < |r| && |r| - h == |kids| - i && Same(kids[i], q, r[h], q1)
    ensures var r := MergeKid(kids, os[0]); forall j :: 0 <= j < |os[1..]| && FindKidD(r, os[1..][j].name) == h ==> Untouched(r[h], os[1..][j], q1)
  {
    hide MergeTree, MergeKid, FindKidD, Untouched, Extends, FollowD, Same, ExtendsKids;
    var r := MergeKid(kids, os[0]);
    KidExtends(kids, os[0]);
    OneExtends(kids, r, i, h);
    SameFacts(kids[i], q, r[h], q1);
    forall j | 0 <= j < |os[1..]| && FindKidD(r, os[1..][j].name) == h
      ensures Untouched(r[h], os[1..][j], q1)
    {
      assert os[1..][j] == os[j + 1];
      PlaceFirst(kids, r, os[j + 1].name);
      StillUntouched(kids[i], r[h], os[j + 1], q, q1);
    }
  }

  lemma OneExtends(kids: seq<DT>, r: seq<DT>, i: nat, h: nat)
    requires ExtendsKids(kids, r) && i < |kids| && h < |r| && |r| - h == |kids| - i
    ensures |r| >= |kids| && Extends(kids[i], r[h])
  {
    hide Extends;
    assert r[|r| - |kids| + i] == r[h];
  }

  lemma {:induction false} BaseStep(kids: seq<DT>, x: DT, i: nat, q: seq<nat>) returns (h: nat, p: seq<nat>)
    requires i < |kids| && DIsPath(kids[i], q) && (FindKidD(kids, x.name) == i ==> Untouched(kids[i], x, q))
    ensures var r := MergeKid(kids, x); h < |r| && |r| - h == |kids| - i && Same(kids[i], q, r[h], p)
    decreases x, 3
  {
    hide MergeTree, Untouched, MergeKid, FindKidD, Same;
    MergedKid(kids, x);
    KidNames(kids, x);
    h := i + Added(kids, MergeKid(kids, x));
    if FindKidD(kids, x.name) == i {
      p := BaseNode(kids[i], x, q);
    } else {
      p := q;
      SameSelf(kids[i], q);
    }
  }

  // ------------------------------------------------------------------ there are no other nodes

  /** Every child of the result is a base child left alone, or what the name of an overlay child leads to. */
  lemma {:induction false} KidFrom(kids: seq<DT>, os: seq<DT>, k: nat) returns (j: nat)
    requires Distinct(os) && k < |MergeKids(kids, os)|
    ensures var r := MergeKids(kids, os); var s := |r| - |kids|;
      if j < |os| then FindKidD(r, os[j].name) == k else 0 <= s <= k && r[k] == kids[k - s]
    decreases |os|
  {
    hide MergeTree, MergeKid, MergeKids, NameEq, FindKidD;
    if os == [] {
      MergeNone(kids);
      j := 0;
    } else {
      var init, x := os[..|os| - 1], os[|os| - 1];
      var a, b := MergeKids(kids, init), MergeKids(kids, os);
      assert os == init + [x];
      MergeKidsSnoc(kids, init, x);
      KidsExtend(kids, init);
      MergedKid(a, x);
      Landed(a, x);
      var t := |b| - |a|;
      if k == FindKidD(b, x.name) {
        j := |os| - 1;
      } else {
        assert t <= k && b[(k - t) + t] == a[k - t];
        j := KidFrom(kids, init, k - t);
        if j < |init| {
          var n := os[j].name;
          SelectedAccepted(a, n);
          AnswersOnce(os, j, |os| - 1, a[k - t].name);
          SelectedKept(a, x, n);
        } else {
          j := |os|;
        }
      }
    }
  }

  lemma MergeNone(kids: seq<DT>)
    ensures MergeKids(kids, []) == kids
  {
  }

  /**
    A name still selects the base child it selected before exactly if none of the added children
    answers to it: a new child a@1 takes the name a over.
   */
  lemma NameLeadsOn(kids: seq<DT>, os: seq<DT>, n: bytes)
    requires Distinct(os)
    ensures var r := MergeKids(kids, os);
      FindKidD(r, n) == Added(kids, r) + FindKidD(kids, n) <==>
      forall j :: 0 <= j < |os| && FindKidD(kids, os[j].name) == |kids| ==> !NameEq(os[j].name, n)
  {
    hide MergeTree, MergeKids, NameEq, FindKidD, Extends;
    var r := MergeKids(kids, os);
    var s := Added(kids, r);
    KidsExtend(kids, os);
    SelectedLeast(kids, n);
    if FindKidD(r, n) == s + FindKidD(kids, n) {
      forall j | 0 <= j < |os| && FindKidD(kids, os[j].name) == |kids|
        ensures !NameEq(os[j].name, n)
      {
        KidFound(kids, os, j);
        MergedName(Receiver(kids, os[j]), os[j]);
        BeforeSelected(r, n, FindKidD(r, os[j].name));
      }
    }
    if forall j :: 0 <= j < |os| && FindKidD(kids, os[j].name) == |kids| ==> !NameEq(os[j].name, n) {
      forall k | 0 <= k < s
        ensures !NameEq(r[k].name, n)
      {
        var j := KidFrom(kids, os, k);
        KidFound(kids, os, j);
        SelectedLeast(kids, os[j].name);
        MergedName(Receiver(kids, os[j]), os[j]);
      }
      forall i | 0 <= i < |kids|
        ensures r[s + i].name == kids[i].name
      {
        ExtendsName(kids[i], r[|r| - |kids| + i]);
      }
      FoundShifted(kids, r, s, n);
    }
  }

  lemma BeforeSelected(kids: seq<DT>, n: bytes, i: nat)
    requires i < FindKidD(kids, n)
    ensures i < |kids| && !NameEq(kids[i].name, n)
  {
  }

  /** Every node of the result has the place of a node of the base, or is found by the names of a node of the overlay. */
  lemma {:induction false} NoOtherNode(d: DT, o: DT, p: seq<nat>) returns (q: seq<nat>, r: seq<nat>)
    requires DistinctAll(o) && DIsPath(MergeTree(d, o), p)
    ensures SamePlace(d, q, MergeTree(d, o), p) || (DIsPath(o, r) && FollowD(MergeTree(d, o), NamesTo(o, r)) == Reached(p))
    decreases p
  {
    hide MergeProps, MergeKids, FindKidD, NameEq;
    var m := MergeTree(d, o);
    q, r := [], [];
    if p != [] {
      var k, s := p[0], |m.kids| - |d.kids|;
      assert p == [k] + p[1..];
      var j := KidFrom(d.kids, o.kids, k);
      if j < |o.kids| {
        var x := o.kids[j];
        KidFound(d.kids, o.kids, j);
        SelectedLeast(d.kids, x.name);
        q, r := NoOtherNode(Receiver(d.kids, x), x, p[1..]);
        if DIsPath(x, r) && FollowD(m.kids[k], NamesTo(x, r)) == Reached(p[1..]) {
          FollowName(m, x.name, NamesTo(x, r));
          assert ([j] + r)[1..] == r;
          r := [j] + r;
        } else if FindKidD(d.kids, x.name) < |d.kids| {
          assert ([k - s] + q)[1..] == q;
          q := [k - s] + q;
        } else {
          NoPlace(x.name, q, m.kids[k], p[1..]);
          FollowName(m, x.name, []);
          r := [j];
          assert r[1..] == [] && p[1..] == [] && NamesTo(o, r) == [x.name] + [];
        }
      } else {
        SamePlaceSelf(m.kids[k], p[1..]);
        q := [k - s] + p[1..];
      }
    }
  }

  lemma NoPlace(n: bytes, q: seq<nat>, m: DT, p: seq<nat>)
    requires SamePlace(DT(n, [], []), q, m, p)
    ensures q == [] && p == []
  {
  }

  // ------------------------------------------------------------------ fragments

  lemma {:induction false} PutThere(d: DT, q: seq<nat>, n: DT)
    requires DIsPath(d, q)
    ensures DIsPath(DPut(d, q, n), q) && DAt(DPut(d, q, n), q) == n
    decreases q
  {
    if q != [] {
      PutThere(d.kids[q[0]], q[1..], n);
    }
  }

  /**
    One fragment: without an __overlay__ node it changes nothing, without a target it fails; otherwise
    the target is where it was, and every node of __overlay__ is found below it with the overlay's
    values, or else those of the base.
   */
  lemma FragmentNode(d: DT, fr: DT, r: seq<nat>, name: bytes)
    ensures var c, t, m := FindKidD(fr.kids, OverlayName()), TargetOf(d, fr.props), MergeFragment(d, fr);
      if c == |fr.kids| then m == Merged.Tree(d)
      else if t.Fails? then m == Merged.Error(t.err)
      else
        && m.Tree? && DIsPath(d, t.path) && DIsPath(m.d, t.path)
        && (DIsPath(fr.kids[c], r) && DistinctTo(fr.kids[c], r) ==>
              var names, was, now := NamesTo(fr.kids[c], r), DAt(d, t.path), DAt(m.d, t.path);
              var v := LastValue(DAt(fr.kids[c], r).props, name);
              FollowD(now, names).Reached? && ValueAlong(now, names, name) == if v.Some? then v else ValueAlong(was, names, name))
  {
    hide MergeTree, TargetOf, FollowD, LastValue, Lookup;
    var c, t := FindKidD(fr.kids, OverlayName()), TargetOf(d, fr.props);
    if c < |fr.kids| && t.Goal? {
      PutThere(d, t.path, MergeTree(DAt(d, t.path), fr.kids[c]));
      if DIsPath(fr.kids[c], r) && DistinctTo(fr.kids[c], r) {
        OverlayNode(DAt(d, t.path), fr.kids[c], r, name);
      }
    }
  }
}
