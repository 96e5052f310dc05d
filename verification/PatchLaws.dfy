/**
  What raising the phandles of an overlay and following its references does, node by node, and when
  it fails.
 */
module PatchLaws {
  import opened Wrappers
  import opened Bytes
  import opened Meaning
  import opened Walk
  import opened Effects
  import opened Merge
  import opened MergeLaws
  import opened Paths
  import opened OverlayTarget
  import opened Phandles
  import opened References
  import opened OverlayApply

  // ------------------------------------------------------------------ when phandles can be raised

  /** A phandle property that stays a phandle when it is raised: a word, and still below 2^32 - 1. */
  predicate CanRise(v: Option<bytes>, delta: nat) {
    v.Some? ==> |v.value| == 4 && U32(v.value, 0) + delta < 0xffff_ffff
  }

  predicate CanRiseBoth(ps: seq<DProp>, delta: nat) {
    CanRise(Lookup(ps, PhandleName()), delta) && CanRise(Lookup(ps, LinuxPhandleName()), delta)
  }

  lemma ShiftPropFine(ps: seq<DProp>, name: bytes, delta: nat)
    requires delta < TWO32
    ensures ShiftProp(ps, name, delta).Fine? <==> CanRise(Lookup(ps, name), delta)
  {
    hide Lookup, SetP, U32, BE32;
    var v := Lookup(ps, name);
    if v.Some? && |v.value| == 4 {
      var x := U32(v.value, 0);
      assert if x + delta < TWO32 then (x + delta) % TWO32 == x + delta else (x + delta) % TWO32 == x + delta - TWO32;
    }
  }

  lemma ShiftPropsFine(ps: seq<DProp>, delta: nat)
    requires delta < TWO32
    ensures ShiftProps(ps, delta).Fine? <==> CanRiseBoth(ps, delta)
  {
    hide Lookup, SetP, ShiftProp, CanRise;
    ShiftPropFine(ps, PhandleName(), delta);
    assert PhandleName() != LinuxPhandleName();
    if ShiftProp(ps, PhandleName(), delta).Fine? {
      var q := ShiftProp(ps, PhandleName(), delta).value;
      ShiftPropFine(q, LinuxPhandleName(), delta);
      ShiftedProp(ps, PhandleName(), delta, LinuxPhandleName());
    }
  }

  /** A property that cannot: BADPHANDLE if it is no word, NOPHANDLES if the sum reaches 2^32 - 1. */
  lemma ShiftPropFails(ps: seq<DProp>, name: bytes, delta: nat)
    requires delta < TWO32 && !CanRise(Lookup(ps, name), delta)
    ensures ShiftProp(ps, name, delta) == Bad(if |Lookup(ps, name).value| != 4 then FDT_ERR_BADPHANDLE else FDT_ERR_NOPHANDLES)
  {
    hide Lookup, SetP, U32, BE32;
    ShiftPropFine(ps, name, delta);
  }

  /** Every phandle of every node can rise. */
  ghost predicate AllCanRise(d: DT, delta: nat) {
    forall q :: DIsPath(d, q) ==> CanRiseBoth(DAt(d, q).props, delta)
  }

  lemma RiseBelow(d: DT, delta: nat)
    ensures AllCanRise(d, delta) <==> CanRiseBoth(d.props, delta) && forall i :: 0 <= i < |d.kids| ==> AllCanRise(d.kids[i], delta)
  {
    hide CanRiseBoth;
    if AllCanRise(d, delta) {
      assert DIsPath(d, []) && DAt(d, []) == d;
      forall i, q | 0 <= i < |d.kids| && DIsPath(d.kids[i], q)
        ensures CanRiseBoth(DAt(d.kids[i], q).props, delta)
      {
        assert ([i] + q)[1..] == q;
        assert DIsPath(d, [i] + q) && DAt(d, [i] + q) == DAt(d.kids[i], q);
      }
    } else {
      var q :| DIsPath(d, q) && !CanRiseBoth(DAt(d, q).props, delta);
      assert q != [] ==> DIsPath(d.kids[q[0]], q[1..]) && DAt(d, q) == DAt(d.kids[q[0]], q[1..]);
    }
  }

  /** The shift succeeds exactly then. */
  lemma {:induction false} ShiftFine(d: DT, delta: nat)
    requires delta < TWO32
    ensures ShiftTree(d, delta).Fine? <==> AllCanRise(d, delta)
    decreases d, 1
  {
    hide ShiftProps, CanRiseBoth, AllCanRise;
    ShiftPropsFine(d.props, delta);
    ShiftKidsFine(d.kids, delta);
    RiseBelow(d, delta);
  }

  lemma {:induction false} ShiftKidsFine(ks: seq<DT>, delta: nat)
    requires delta < TWO32
    ensures ShiftKids(ks, delta).Fine? <==> forall i :: 0 <= i < |ks| ==> AllCanRise(ks[i], delta)
    decreases ks, 0
  {
    hide ShiftTree, AllCanRise;
    if ks != [] {
      ShiftFine(ks[0], delta);
      ShiftKidsFine(ks[1..], delta);
      assert forall i :: 1 <= i < |ks| ==> ks[i] == ks[1..][i - 1];
    }
  }

  // ------------------------------------------------------------------ the shape stays

  /** The same nodes with the same names, whose properties have the same names and lengths. */
  ghost predicate Alike(d: DT, m: DT)
    decreases d
  {
    && m.name == d.name && |m.kids| == |d.kids| && SameLens(d.props, m.props)
    && forall i :: 0 <= i < |d.kids| ==> Alike(d.kids[i], m.kids[i])
  }

  function Len(v: Option<bytes>): int {
    if v.Some? then |v.value| else -1
  }

  ghost predicate SameLens(ps: seq<DProp>, qs: seq<DProp>) {
    forall name :: Len(Lookup(qs, name)) == Len(Lookup(ps, name))
  }

  lemma {:induction false} AlikeSelf(d: DT)
    ensures Alike(d, d)
    decreases d
  {
    hide SameLens;
    assert SameLens(d.props, d.props) by { LensSelf(d.props); }
    forall i | 0 <= i < |d.kids|
      ensures Alike(d.kids[i], d.kids[i])
    {
      AlikeSelf(d.kids[i]);
    }
  }

  lemma LensSelf(ps: seq<DProp>)
    ensures SameLens(ps, ps)
  {
  }

  lemma LensTrans(a: seq<DProp>, b: seq<DProp>, c: seq<DProp>)
    requires SameLens(a, b) && SameLens(b, c)
    ensures SameLens(a, c)
  {
    hide Lookup;
  }

  lemma SetKeepsLens(ps: seq<DProp>, name: bytes, w: bytes)
    requires Lookup(ps, name).Some? && |Lookup(ps, name).value| == |w|
    ensures SameLens(ps, SetP(ps, name, w))
  {
    hide Lookup, SetP;
    forall other
      ensures Len(Lookup(SetP(ps, name, w), other)) == Len(Lookup(ps, other))
    {
      SetLookup(ps, name, w, other);
    }
  }

  /** Lists of nodes that are alike one by one. */
  ghost predicate AlikeAll(ks: seq<DT>, ms: seq<DT>) {
    |ms| == |ks| && forall i :: 0 <= i < |ks| ==> Alike(ks[i], ms[i])
  }

  lemma {:induction false} AlikeTrans(a: DT, b: DT, c: DT)
    requires Alike(a, b) && Alike(b, c)
    ensures Alike(a, c)
    decreases a
  {
    hide SameLens;
    LensTrans(a.props, b.props, c.props);
    forall i | 0 <= i < |a.kids|
      ensures Alike(a.kids[i], c.kids[i])
    {
      AlikeTrans(a.kids[i], b.kids[i], c.kids[i]);
    }
  }

  lemma AlikeAllSelf(ks: seq<DT>)
    ensures AlikeAll(ks, ks)
  {
    hide Alike;
    forall i | 0 <= i < |ks|
      ensures Alike(ks[i], ks[i])
    {
      AlikeSelf(ks[i]);
    }
  }

  /** One node replaced by one like it, and then the rest. */
  lemma AlikeAllStep(ks: seq<DT>, c: nat, y: DT, ms: seq<DT>)
    requires c < |ks| && Alike(ks[c], y) && AlikeAll(ks[c := y], ms)
    ensures AlikeAll(ks, ms)
  {
    hide Alike;
    forall i | 0 <= i < |ks|
      ensures Alike(ks[i], ms[i])
    {
      if i == c {
        AlikeTrans(ks[c], y, ms[c]);
      } else {
        assert ks[c := y][i] == ks[i];
      }
    }
  }

  lemma AlikeFinds(ks: seq<DT>, ms: seq<DT>, n: bytes)
    requires AlikeAll(ks, ms)
    ensures FindKidD(ms, n) == FindKidD(ks, n) <= |ks|
  {
    hide NameEq, SameLens;
    assert forall i :: 0 <= i < |ks| ==> ms[i].name == ks[i].name;
    FindKidDIs(ms, n, FindKidD(ks, n));
  }

  lemma {:induction false} AlikePath(d: DT, m: DT, q: seq<nat>)
    requires Alike(d, m)
    ensures DIsPath(m, q) <==> DIsPath(d, q)
    ensures DIsPath(d, q) ==> DAt(m, q).name == DAt(d, q).name && Alike(DAt(d, q), DAt(m, q))
    decreases q
  {
    hide SameLens;
    if q != [] && q[0] < |d.kids| {
      AlikePath(d.kids[q[0]], m.kids[q[0]], q[1..]);
    }
  }

  lemma {:induction false} AlikeFollow(d: DT, m: DT, names: seq<bytes>)
    requires Alike(d, m)
    ensures FollowD(m, names) == FollowD(d, names)
    decreases |names|
  {
    hide SameLens, FindKidD;
    if names != [] {
      AlikeFinds(d.kids, m.kids, names[0]);
      var c := FindKidD(d.kids, names[0]);
      if c < |d.kids| {
        AlikeFollow(d.kids[c], m.kids[c], names[1..]);
      }
    }
  }

  // ------------------------------------------------------------------ when the references can be followed

  /** Every offset listed in fx leaves room for a word in n bytes. */
  ghost predicate WordsWithin(fx: bytes, n: nat, len: nat)
    requires 4 * n <= |fx|
  {
    forall i :: 0 <= i < n ==> U32(fx, 4 * i) + 4 <= len
  }

  /** A list of whole words, for a property that is there and long enough. */
  ghost predicate PropFits(ps: seq<DProp>, x: DProp) {
    |x.value| % 4 == 0 && Lookup(ps, x.name).Some? && WordsWithin(x.value, |x.value| / 4, |Lookup(ps, x.name).value|)
  }

  ghost predicate PropsFit(ps: seq<DProp>, xs: seq<DProp>) {
    forall k :: 0 <= k < |xs| ==> PropFits(ps, xs[k])
  }

  lemma {:induction false} PatchWordsFine(v: bytes, fx: bytes, n: nat, delta: nat)
    requires 4 * n <= |fx|
    ensures PatchWords(v, fx, n, delta).Fine? <==> WordsWithin(fx, n, |v|)
    decreases n
  {
    hide Raised, U32;
    if n > 0 {
      PatchWordsFine(v, fx, n - 1, delta);
    }
  }

  lemma PatchPropFine(ps: seq<DProp>, x: DProp, delta: nat)
    ensures PatchProp(ps, x, delta).Fine? <==> PropFits(ps, x)
    ensures PatchProp(ps, x, delta).Fine? ==> SameLens(ps, PatchProp(ps, x, delta).value)
  {
    hide Lookup, SetP, WordsWithin, PatchWords, SameLens;
    if |x.value| % 4 == 0 && Lookup(ps, x.name).Some? {
      PatchWordsFine(Lookup(ps, x.name).value, x.value, |x.value| / 4, delta);
      if PatchProp(ps, x, delta).Fine? {
        SetKeepsLens(ps, x.name, PatchWords(Lookup(ps, x.name).value, x.value, |x.value| / 4, delta).value);
      }
    }
  }

  lemma SameFits(ps: seq<DProp>, qs: seq<DProp>, x: DProp)
    requires SameLens(ps, qs)
    ensures PropFits(ps, x) <==> PropFits(qs, x)
  {
    hide Lookup, WordsWithin;
    assert Len(Lookup(qs, x.name)) == Len(Lookup(ps, x.name));
  }

  lemma {:induction false} PatchPropsFine(ps: seq<DProp>, xs: seq<DProp>, delta: nat)
    ensures PatchProps(ps, xs, delta).Fine? <==> PropsFit(ps, xs)
    ensures PatchProps(ps, xs, delta).Fine? ==> SameLens(ps, PatchProps(ps, xs, delta).value)
    decreases |xs|
  {
    hide PropFits, SameLens, PatchProp;
    if xs == [] {
      LensSelf(ps);
    } else {
      PatchPropFine(ps, xs[0], delta);
      if PatchProp(ps, xs[0], delta).Fine? {
        var qs := PatchProp(ps, xs[0], delta).value;
        PatchPropsFine(qs, xs[1..], delta);
        forall k | 1 <= k < |xs|
          ensures PropFits(qs, xs[1..][k - 1]) <==> PropFits(ps, xs[k])
        {
          SameFits(ps, qs, xs[k]);
        }
        assert forall k :: 0 <= k < |xs[1..]| ==> xs[1..][k] == xs[k + 1];
        if PatchProps(qs, xs[1..], delta).Fine? {
          LensTrans(ps, qs, PatchProps(qs, xs[1..], delta).value);
        }
      }
    }
  }

  /** Every fixups node is for a node of the tree, and every list in it fits a property there. */
  ghost predicate FixupsFit(d: DT, x: DT)
    decreases x
  {
    && PropsFit(d.props, x.props)
    && forall j :: 0 <= j < |x.kids| ==> var c := FindKidD(d.kids, x.kids[j].name); c < |d.kids| && FixupsFit(d.kids[c], x.kids[j])
  }

  lemma {:induction false} AlikeFits(d: DT, m: DT, x: DT)
    requires Alike(d, m)
    ensures FixupsFit(d, x) <==> FixupsFit(m, x)
    decreases x
  {
    hide PropFits, FindKidD;
    forall k | 0 <= k < |x.props|
      ensures PropFits(d.props, x.props[k]) <==> PropFits(m.props, x.props[k])
    {
      SameFits(d.props, m.props, x.props[k]);
    }
    forall j | 0 <= j < |x.kids|
      ensures var c, e := FindKidD(d.kids, x.kids[j].name), FindKidD(m.kids, x.kids[j].name);
        c == e && (c < |d.kids| ==> (FixupsFit(d.kids[c], x.kids[j]) <==> FixupsFit(m.kids[c], x.kids[j])))
    {
      AlikeFinds(d.kids, m.kids, x.kids[j].name);
      var c := FindKidD(d.kids, x.kids[j].name);
      if c < |d.kids| {
        AlikeFits(d.kids[c], m.kids[c], x.kids[j]);
      }
    }
  }

  ghost predicate KidsFit(ks: seq<DT>, xs: seq<DT>) {
    forall j :: 0 <= j < |xs| ==> KidFits(ks, xs[j])
  }

  ghost predicate KidFits(ks: seq<DT>, x: DT) {
    var c := FindKidD(ks, x.name);
    c < |ks| && FixupsFit(ks[c], x)
  }

  /** The references are followed exactly if the fixups fit; the tree keeps its nodes, names and lengths. */
  lemma {:induction false} PatchFine(d: DT, x: DT, delta: nat)
    ensures PatchTree(d, x, delta).Fine? <==> FixupsFit(d, x)
    ensures PatchTree(d, x, delta).Fine? ==> Alike(d, PatchTree(d, x, delta).value)
    decreases x, 1
  {
    hide PropsFit, SameLens, PatchProps;
    PatchPropsFine(d.props, x.props, delta);
    PatchKidsFine(d.kids, x.kids, delta);
    assert KidsFit(d.kids, x.kids) <==> forall j :: 0 <= j < |x.kids| ==> KidFits(d.kids, x.kids[j]);
  }

  lemma {:induction false} PatchKidsFine(ks: seq<DT>, xs: seq<DT>, delta: nat)
    ensures PatchKids(ks, xs, delta).Fine? <==> KidsFit(ks, xs)
    ensures PatchKids(ks, xs, delta).Fine? ==> AlikeAll(ks, PatchKids(ks, xs, delta).value)
    decreases xs, 0
  {
    hide Alike, PatchTree, FindKidD, FixupsFit, AlikeAll;
    if xs == [] {
      AlikeAllSelf(ks);
    } else {
      var c := FindKidD(ks, xs[0].name);
      assert KidsFit(ks, xs) ==> KidFits(ks, xs[0]);
      SelectedLeast(ks, xs[0].name);
      if c < |ks| {
        PatchFine(ks[c], xs[0], delta);
        if PatchTree(ks[c], xs[0], delta).Fine? {
          var y := PatchTree(ks[c], xs[0], delta).value;
          var ms := ks[c := y];
          PatchKidsFine(ms, xs[1..], delta);
          OneAlike(ks, c, y);
          forall j | 1 <= j < |xs|
            ensures KidFits(ms, xs[1..][j - 1]) <==> KidFits(ks, xs[j])
          {
            SameKidFits(ks, ms, xs[j]);
          }
          assert forall j :: 0 <= j < |xs[1..]| ==> xs[1..][j] == xs[j + 1];
          if PatchKids(ms, xs[1..], delta).Fine? {
            AlikeAllStep(ks, c, y, PatchKids(ms, xs[1..], delta).value);
          }
        }
      }
    }
  }

  lemma OneAlike(ks: seq<DT>, c: nat, y: DT)
    requires c < |ks| && Alike(ks[c], y)
    ensures AlikeAll(ks, ks[c := y])
  {
    hide Alike;
    AlikeAllSelf(ks);
  }

  lemma SameKidFits(ks: seq<DT>, ms: seq<DT>, x: DT)
    requires AlikeAll(ks, ms)
    ensures KidFits(ks, x) <==> KidFits(ms, x)
  {
    hide Alike, FixupsFit;
    AlikeFinds(ks, ms, x.name);
    var c := FindKidD(ks, x.name);
    if c < |ks| {
      AlikeFits(ks[c], ms[c], x);
    }
  }

  // ------------------------------------------------------------------ what becomes of a node

  /** A node no fixups child is for stays. */
  lemma {:induction false} KidAlone(ks: seq<DT>, xs: seq<DT>, delta: nat, i: nat)
    requires PatchKids(ks, xs, delta).Fine? && i < |ks| && forall j :: 0 <= j < |xs| ==> FindKidD(ks, xs[j].name) != i
    ensures |PatchKids(ks, xs, delta).value| == |ks| && PatchKids(ks, xs, delta).value[i] == ks[i]
    decreases |xs|
  {
    hide PatchTree, FindKidD, Alike, KidsFit;
    if xs != [] {
      var c := FindKidD(ks, xs[0].name);
      SelectedLeast(ks, xs[0].name);
      var ms := ks[c := PatchTree(ks[c], xs[0], delta).value];
      PatchFine(ks[c], xs[0], delta);
      OneAlike(ks, c, ms[c]);
      forall j | 0 <= j < |xs[1..]|
        ensures FindKidD(ms, xs[1..][j].name) != i
      {
        AlikeFinds(ks, ms, xs[j + 1].name);
      }
      KidAlone(ms, xs[1..], delta, i);
    }
  }

  /** Among distinct fixups children each patches the node it is for, once. */
  lemma {:induction false} KidPatched(ks: seq<DT>, xs: seq<DT>, delta: nat, j: nat)
    requires PatchKids(ks, xs, delta).Fine? && Distinct(xs) && j < |xs|
    ensures var c, r := FindKidD(ks, xs[j].name), PatchKids(ks, xs, delta).value;
      c < |ks| == |r| && FindKidD(r, xs[j].name) == c && PatchTree(ks[c], xs[j], delta) == Fine(r[c])
    decreases |xs|
  {
    hide PatchTree, FindKidD, NameEq, KidsFit, Alike, AlikeAll;
    var x, c := xs[0], FindKidD(ks, xs[0].name);
    SelectedLeast(ks, x.name);
    var y := PatchTree(ks[c], x, delta).value;
    var ms, r := ks[c := y], PatchKids(ks, xs, delta).value;
    PatchFine(ks[c], x, delta);
    OneAlike(ks, c, y);
    PatchKidsFine(ks, xs, delta);
    AlikeFinds(ks, r, xs[j].name);
    AlikeFinds(ks, ms, xs[j].name);
    if j == 0 {
      forall i | 0 <= i < |xs[1..]|
        ensures FindKidD(ms, xs[1..][i].name) != c
      {
        AlikeFinds(ks, ms, xs[i + 1].name);
        SelectedAccepted(ks, x.name);
        SelectedAccepted(ks, xs[i + 1].name);
        AnswersOnce(xs, 0, i + 1, ks[c].name);
      }
      KidAlone(ms, xs[1..], delta, c);
    } else {
      assert xs[1..][j - 1] == xs[j];
      KidPatched(ms, xs[1..], delta, j - 1);
      SelectedAccepted(ks, x.name);
      SelectedAccepted(ks, xs[j].name);
      if FindKidD(ks, xs[j].name) == c {
        AnswersOnce(xs, 0, j, ks[c].name);
      }
    }
  }

  /** The node the names of a fixups node lead to has the properties it lists patched. */
  lemma {:induction false} FixupsNode(d: DT, x: DT, delta: nat, p: seq<nat>)
    requires PatchTree(d, x, delta).Fine? && DIsPath(x, p) && DistinctTo(x, p)
    ensures var f, r := FollowD(d, NamesTo(x, p)), PatchTree(d, x, delta).value;
      f.Reached? && DIsPath(r, f.path) && PatchProps(DAt(d, f.path).props, DAt(x, p).props, delta) == Fine(DAt(r, f.path).props)
    decreases p
  {
    hide PatchProps, FindKidD;
    if p != [] {
      var j := p[0];
      var y, r := x.kids[j], PatchTree(d, x, delta).value;
      KidPatched(d.kids, x.kids, delta, j);
      var c := FindKidD(d.kids, y.name);
      FixupsNode(d.kids[c], y, delta, p[1..]);
      FollowName(d, y.name, NamesTo(y, p[1..]));
      var q := FollowD(d.kids[c], NamesTo(y, p[1..])).path;
      assert ([c] + q)[1..] == q;
    }
  }

  /** A node that the names of no fixups node lead to keeps its properties. */
  lemma {:induction false} NodeAlone(d: DT, x: DT, delta: nat, q: seq<nat>)
    requires PatchTree(d, x, delta).Fine? && DIsPath(d, q) && Untouched(d, x, q)
    ensures var r := PatchTree(d, x, delta).value; DIsPath(r, q) && DAt(r, q).name == DAt(d, q).name && DAt(r, q).props == DAt(d, q).props
    decreases x, 1
  {
    hide PatchProps, FindKidD, PatchKids;
    assert DIsPath(x, []) && FollowD(d, NamesTo(x, [])) == Reached([]);
    assert q != [];
    forall j | 0 <= j < |x.kids| && FindKidD(d.kids, x.kids[j].name) == q[0]
      ensures Untouched(d.kids[q[0]], x.kids[j], q[1..])
    {
      UntouchedBelow(d, x, q, j);
    }
    NodeAloneIn(d.kids, x.kids, delta, q[0], q[1..]);
  }

  lemma {:induction false} NodeAloneIn(ks: seq<DT>, xs: seq<DT>, delta: nat, i: nat, q: seq<nat>)
    requires PatchKids(ks, xs, delta).Fine? && i < |ks| && DIsPath(ks[i], q)
    requires forall j :: 0 <= j < |xs| && FindKidD(ks, xs[j].name) == i ==> Untouched(ks[i], xs[j], q)
    ensures var r := PatchKids(ks, xs, delta).value;
      i < |r| && DIsPath(r[i], q) && DAt(r[i], q).name == DAt(ks[i], q).name && DAt(r[i], q).props == DAt(ks[i], q).props
    decreases xs, 0
  {
    hide PatchTree, FindKidD, Alike, Untouched, AlikeAll;
    if xs != [] {
      var x, c := xs[0], FindKidD(ks, xs[0].name);
      SelectedLeast(ks, x.name);
      var y := PatchTree(ks[c], x, delta).value;
      var ms := ks[c := y];
      PatchFine(ks[c], x, delta);
      OneAlike(ks, c, y);
      if c == i {
        NodeAlone(ks[c], x, delta, q);
      }
      forall j | 0 <= j < |xs[1..]| && FindKidD(ms, xs[1..][j].name) == i
        ensures Untouched(ms[i], xs[1..][j], q)
      {
        AlikeFinds(ks, ms, xs[j + 1].name);
        if c == i {
          AlikeUntouched(ks[i], y, xs[j + 1], q);
        }
      }
      NodeAloneIn(ms, xs[1..], delta, i, q);
    }
  }

  lemma AlikeUntouched(d: DT, m: DT, x: DT, q: seq<nat>)
    requires Alike(d, m) && Untouched(d, x, q)
    ensures Untouched(m, x, q)
  {
    hide Alike, FollowD;
    forall r | DIsPath(x, r)
      ensures FollowD(m, NamesTo(x, r)) != Reached(q)
    {
      AlikeFollow(d, m, NamesTo(x, r));
    }
  }

  // ------------------------------------------------------------------ what becomes of a property

  ghost predicate DistinctNames(xs: seq<DProp>) {
    forall i, j :: 0 <= i < j < |xs| ==> xs[i].name != xs[j].name
  }

  lemma {:induction false} PropAlone(ps: seq<DProp>, xs: seq<DProp>, delta: nat, name: bytes)
    requires PatchProps(ps, xs, delta).Fine? && forall k :: 0 <= k < |xs| ==> xs[k].name != name
    ensures Lookup(PatchProps(ps, xs, delta).value, name) == Lookup(ps, name)
    decreases |xs|
  {
    hide Lookup, SetP, PatchWords;
    if xs != [] {
      var v := Lookup(ps, xs[0].name).value;
      SetLookup(ps, xs[0].name, PatchWords(v, xs[0].value, |xs[0].value| / 4, delta).value, name);
      assert xs[0].name != name;
      PropAlone(PatchProp(ps, xs[0], delta).value, xs[1..], delta, name);
    }
  }

  lemma {:induction false} PropPatched(ps: seq<DProp>, xs: seq<DProp>, delta: nat, k: nat)
    requires PatchProps(ps, xs, delta).Fine? && DistinctNames(xs) && k < |xs|
    ensures var v, fx := Lookup(ps, xs[k].name), xs[k].value;
      && v.Some? && |fx| % 4 == 0 && PatchWords(v.value, fx, |fx| / 4, delta).Fine?
      && Lookup(PatchProps(ps, xs, delta).value, xs[k].name) == Some(PatchWords(v.value, fx, |fx| / 4, delta).value)
    decreases |xs|
  {
    hide Lookup, SetP, PatchWords;
    var qs := PatchProp(ps, xs[0], delta).value;
    var w := PatchWords(Lookup(ps, xs[0].name).value, xs[0].value, |xs[0].value| / 4, delta).value;
    SetLookup(ps, xs[0].name, w, xs[k].name);
    if k == 0 {
      PropAlone(qs, xs[1..], delta, xs[0].name);
    } else {
      assert xs[1..][k - 1] == xs[k];
      PropPatched(qs, xs[1..], delta, k - 1);
    }
  }

  /**
    A reference follows its phandle: in an adjusted overlay the word at offset number i of list k of
    the fixups node at p is higher by the base's largest phandle, as the phandles are; s is the
    overlay with only the phandles raised, x its local fixups.
   */
  lemma ReferenceRaised(d: DT, o: DT, p: seq<nat>, k: nat, i: nat)
    requires MaxPhandle(d) < TWO32 && Adjusted(d, o).Fine?
    requires ShiftTree(o, MaxPhandle(d)).Fine? && FindKidD(ShiftTree(o, MaxPhandle(d)).value.kids, LocalFixupsName()) < |ShiftTree(o, MaxPhandle(d)).value.kids|
    requires var s := ShiftTree(o, MaxPhandle(d)).value; var x := s.kids[FindKidD(s.kids, LocalFixupsName())];
      && DIsPath(x, p) && DistinctTo(x, p) && DistinctNames(DAt(x, p).props) && k < |DAt(x, p).props|
      && 4 * i + 4 <= |DAt(x, p).props[k].value| && Spread(DAt(x, p).props[k].value, |DAt(x, p).props[k].value| / 4)
    ensures var s, a := ShiftTree(o, MaxPhandle(d)).value, Adjusted(d, o).value; var x := s.kids[FindKidD(s.kids, LocalFixupsName())];
      var f, fx := FollowD(s, NamesTo(x, p)), DAt(x, p).props[k];
      && f.Reached? && DIsPath(a, f.path)
      && var v, w, off := Lookup(DAt(s, f.path).props, fx.name), Lookup(DAt(a, f.path).props, fx.name), U32(fx.value, 4 * i);
         v.Some? && w.Some? && |v.value| == |w.value| && off + 4 <= |v.value| && U32(w.value, off) == (U32(v.value, off) + MaxPhandle(d)) % TWO32
  {
    hide ShiftTree, MaxPhandle, PatchTree, FollowD, Lookup, PatchProps, PatchWords, U32, FindKidD, Spread;
    var delta := MaxPhandle(d);
    var s := ShiftTree(o, delta).value;
    var x := s.kids[FindKidD(s.kids, LocalFixupsName())];
    var xs := DAt(x, p).props;
    FixupsNode(s, x, delta, p);
    var q := FollowD(s, NamesTo(x, p)).path;
    PropPatched(DAt(s, q).props, xs, delta, k);
    RefFollows(Lookup(DAt(s, q).props, xs[k].name).value, xs[k].value, |xs[k].value| / 4, delta, i);
  }

  /**
    An adjusted overlay has the nodes of the overlay, with their names; a node no local fixups lead
    to has its own properties, with its phandles raised by the base's largest phandle.
   */
  lemma AdjustedNode(d: DT, o: DT, q: seq<nat>)
    requires MaxPhandle(d) < TWO32 && Adjusted(d, o).Fine?
    ensures ShiftTree(o, MaxPhandle(d)).Fine?
    ensures var s, a := ShiftTree(o, MaxPhandle(d)).value, Adjusted(d, o).value; var c := FindKidD(s.kids, LocalFixupsName());
      && (DIsPath(a, q) <==> DIsPath(o, q))
      && (DIsPath(o, q) ==>
            && DAt(a, q).name == DAt(o, q).name
            && (c < |s.kids| ==> DIsPath(s, q))
            && (c == |s.kids| || Untouched(s, s.kids[c], q) ==> ShiftProps(DAt(o, q).props, MaxPhandle(d)) == Fine(DAt(a, q).props)))
  {
    hide ShiftTree, MaxPhandle, PatchTree, FindKidD, Untouched, ShiftProps, Alike;
    var delta := MaxPhandle(d);
    var s := ShiftTree(o, delta).value;
    var c := FindKidD(s.kids, LocalFixupsName());
    SelectedLeast(s.kids, LocalFixupsName());
    ShiftedAt(o, delta, q);
    if c < |s.kids| {
      PatchFine(s, s.kids[c], delta);
      AlikePath(s, Adjusted(d, o).value, q);
      if DIsPath(o, q) && Untouched(s, s.kids[c], q) {
        NodeAlone(s, s.kids[c], delta, q);
      }
    }
  }
}
