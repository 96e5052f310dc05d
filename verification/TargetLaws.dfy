/**
  What the target of a fragment is: the first node of the base in document order that has the
  phandle, or the node the parts of the path lead to.
 */
module TargetLaws {
  import opened Wrappers
  import opened Bytes
  import opened Meaning
  import opened Blob
  import opened Walk
  import opened Merge
  import opened Paths
  import opened OverlayTarget

  /** The phandle of a node is its "phandle" if that is a word, else its "linux,phandle" if that is one, else 0. */
  lemma PhandleIs(ps: seq<DProp>)
    ensures var a, b := Lookup(ps, PhandleName()), Lookup(ps, LinuxPhandleName());
      && (a.Some? && |a.value| == 4 ==> PhandleOf(ps) == U32(a.value, 0))
      && ((a.None? || |a.value| != 4) && b.Some? && |b.value| == 4 ==> PhandleOf(ps) == U32(b.value, 0))
      && ((a.None? || |a.value| != 4) && (b.None? || |b.value| != 4) ==> PhandleOf(ps) == 0)
  {
  }

  /** The node at p comes before the one at q in document order. */
  predicate Earlier(p: seq<nat>, q: seq<nat>)
    decreases p
  {
    q != [] && (p == [] || p[0] < q[0] || (p[0] == q[0] && Earlier(p[1..], q[1..])))
  }

  lemma {:induction false} PhandleThere(d: DT, x: nat)
    ensures FindPhandle(d, x).Reached? ==> PhandleOf(DAt(d, FindPhandle(d, x).path).props) == x
    decreases d, 1
  {
    hide PhandleOf;
    PhandleThereS(d.kids, x);
  }

  lemma {:induction false} PhandleThereS(kids: seq<DT>, x: nat)
    ensures var r := FindPhandleS(kids, x); r.Reached? ==> PhandleOf(DAt(kids[r.path[0]], r.path[1..]).props) == x
    decreases kids, 0
  {
    hide PhandleOf;
    if kids != [] {
      PhandleThere(kids[0], x);
      PhandleThereS(kids[1..], x);
      var r := FindPhandleS(kids, x);
      if r.Reached? && FindPhandle(kids[0], x).Missing? {
        var q := FindPhandleS(kids[1..], x).path;
        assert r.path == [q[0] + 1] + q[1..] && r.path[1..] == q[1..];
        assert kids[q[0] + 1] == kids[1..][q[0]];
      } else if r.Reached? {
        assert r.path[1..] == FindPhandle(kids[0], x).path;
      }
    }
  }

  /** A node with the phandle: the search finds it or one before it. */
  lemma {:induction false} PhandleFound(d: DT, x: nat, p: seq<nat>)
    requires DIsPath(d, p) && PhandleOf(DAt(d, p).props) == x
    ensures FindPhandle(d, x).Reached? && !Earlier(p, FindPhandle(d, x).path)
    decreases p
  {
    hide PhandleOf;
    if p != [] {
      PhandleFound(d.kids[p[0]], x, p[1..]);
      FirstKidWith(d.kids, x, p[0]);
    }
  }

  lemma {:induction false} FirstKidWith(kids: seq<DT>, x: nat, i: nat)
    requires i < |kids| && FindPhandle(kids[i], x).Reached?
    ensures var r := FindPhandleS(kids, x);
      r.Reached? && r.path[0] <= i && (r.path[0] == i ==> r.path[1..] == FindPhandle(kids[i], x).path)
    decreases i
  {
    hide FindPhandle;
    if FindPhandle(kids[0], x).Reached? {
      assert ([0] + FindPhandle(kids[0], x).path)[1..] == FindPhandle(kids[0], x).path;
    } else {
      FirstKidWith(kids[1..], x, i - 1);
      var q := FindPhandleS(kids[1..], x).path;
      assert ([q[0] + 1] + q[1..])[1..] == q[1..];
    }
  }

  /** q is the first node with phandle x. */
  ghost predicate FirstWith(d: DT, x: nat, q: seq<nat>) {
    && DIsPath(d, q) && PhandleOf(DAt(d, q).props) == x
    && forall p :: DIsPath(d, p) && Earlier(p, q) ==> PhandleOf(DAt(d, p).props) != x
  }

  ghost predicate NoneWith(d: DT, x: nat) {
    forall p :: DIsPath(d, p) ==> PhandleOf(DAt(d, p).props) != x
  }

  /** The search by phandle: the first node that has it, or none has it. */
  lemma PhandleFirst(d: DT, x: nat)
    ensures var r := FindPhandle(d, x); if r.Reached? then FirstWith(d, x, r.path) else NoneWith(d, x)
  {
    hide PhandleOf, FindPhandle;
    PhandleThere(d, x);
    forall p | DIsPath(d, p) && PhandleOf(DAt(d, p).props) == x
      ensures FindPhandle(d, x).Reached? && !Earlier(p, FindPhandle(d, x).path)
    {
      PhandleFound(d, x, p);
    }
  }

  /** The parts of a path lead to q: each node on the way is the first of its siblings to answer to its part. */
  ghost predicate LedTo(d: DT, segs: seq<bytes>, q: seq<nat>)
    decreases q
  {
    && |q| == |segs|
    && (q != [] ==>
          && q[0] < |d.kids| && NameEq(d.kids[q[0]].name, segs[0]) && (forall i :: 0 <= i < q[0] ==> !NameEq(d.kids[i].name, segs[0]))
          && LedTo(d.kids[q[0]], segs[1..], q[1..]))
  }

  lemma {:induction false} FollowLed(d: DT, segs: seq<bytes>, q: seq<nat>)
    ensures FollowD(d, segs) == Reached(q) <==> LedTo(d, segs, q)
    decreases |segs|
  {
    hide NameEq;
    if segs != [] {
      var c := FindKidD(d.kids, segs[0]);
      if q != [] {
        if LedTo(d, segs, q) {
          FindKidDIs(d.kids, segs[0], q[0]);
        }
        if c < |d.kids| && q[0] == c {
          FollowLed(d.kids[c], segs[1..], q[1..]);
          assert q == [c] + q[1..];
          if FollowD(d.kids[c], segs[1..]).Reached? {
            var p := FollowD(d.kids[c], segs[1..]).path;
            assert ([c] + p)[1..] == p;
          }
        }
      }
    }
  }

  /** A malformed phandle, the first node with the phandle, or without a phandle the node the path leads to. */
  lemma TargetIs(d: DT, ps: seq<DProp>)
    ensures var t, v, r := Lookup(ps, TargetName()), Lookup(ps, TargetPathName()), TargetOf(d, ps);
      if t.Some? && (|t.value| != 4 || U32(t.value, 0) == 0xffff_ffff) then r == Fails(FDT_ERR_BADPHANDLE)
      else if t.Some? && U32(t.value, 0) != 0 then
        if r.Goal? then FirstWith(d, U32(t.value, 0), r.path) else r.err == FDT_ERR_NOTFOUND && NoneWith(d, U32(t.value, 0))
      else if v.None? then r == Fails(FDT_ERR_BADOVERLAY)
      else
        var segs := Segs(StrAt(v.value, 0));
        if r.Goal? then LedTo(d, segs, r.path) else r.err == FDT_ERR_NOTFOUND && forall q :: !LedTo(d, segs, q)
  {
    hide PhandleOf, FindPhandle, FollowD, LedTo, FirstWith, NoneWith, Segs, StrAt, Lookup, U32;
    var t, v := Lookup(ps, TargetName()), Lookup(ps, TargetPathName());
    if t.Some? && |t.value| == 4 && U32(t.value, 0) != 0 {
      PhandleFirst(d, U32(t.value, 0));
    } else if v.Some? {
      var segs := Segs(StrAt(v.value, 0));
      forall q
        ensures FollowD(d, segs) == Reached(q) <==> LedTo(d, segs, q)
      {
        FollowLed(d, segs, q);
      }
    }
  }
}
