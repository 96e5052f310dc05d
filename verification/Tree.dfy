/**
  The tree held by a structure block.  An Item keeps everything the tokens keep - NOP tags,
  padding and string offsets included - so that flattening it is exact; DT is what the tree means.
 */
module Tree {
  import opened Bytes
  import opened Tokens

  datatype Item =
    | Nop
    | Prop(nameoff: nat, value: bytes, ppad: bytes)
    | Node(name: bytes, npad: bytes, items: seq<Item>)

  function Flat(it: Item): seq<Tok>
    decreases it, 1
  {
    match it
    case Nop => [TNop]
    case Prop(o, v, p) => [TProp(o, v, p)]
    case Node(n, p, its) => [TBegin(n, p)] + FlatS(its) + [TEnd]
  }

  function FlatS(its: seq<Item>): seq<Tok>
    decreases its, 0
  {
    if its == [] then [] else Flat(its[0]) + FlatS(its[1..])
  }

  /** The whole structure block of a tree. */
  function Block(root: Item): seq<Tok> {
    Flat(root) + [TFin]
  }

  lemma {:induction false} FlatSConcat(a: seq<Item>, b: seq<Item>)
    ensures FlatS(a + b) == FlatS(a) + FlatS(b)
  {
    if a == [] {
      assert a + b == b;
    } else {
      FlatSConcat(a[1..], b);
      assert (a + b)[0] == a[0] && (a + b)[1..] == a[1..] + b;
      Assoc(Flat(a[0]), FlatS(a[1..]), FlatS(b));
    }
  }

  lemma FlatSSplit(its: seq<Item>, k: nat)
    requires k < |its|
    ensures FlatS(its) == FlatS(its[..k]) + Flat(its[k]) + FlatS(its[k + 1..])
  {
    assert its[k..][0] == its[k] && its[k..][1..] == its[k + 1..];
    assert its == its[..k] + its[k..];
    FlatSConcat(its[..k], its[k..]);
    Assoc(FlatS(its[..k]), Flat(its[k]), FlatS(its[k + 1..]));
  }

  // ------------------------------------------------------------------ paths

  /** p leads from node `it` through child items to a node. */
  predicate IsPath(it: Item, p: seq<nat>)
    decreases p
  {
    it.Node? && (p == [] || (p[0] < |it.items| && IsPath(it.items[p[0]], p[1..])))
  }

  function At(it: Item, p: seq<nat>): (r: Item)
    requires IsPath(it, p)
    ensures r.Node?
    decreases p
  {
    if p == [] then it else At(it.items[p[0]], p[1..])
  }

  /** The tree with the node at p replaced. */
  function Put(it: Item, p: seq<nat>, n: Item): (r: Item)
    requires IsPath(it, p) && n.Node?
    ensures r.Node?
    decreases p
  {
    if p == [] then n else it.(items := it.items[p[0] := Put(it.items[p[0]], p[1..], n)])
  }

  /** The tokens before and after the node at p. */
  function Pre(it: Item, p: seq<nat>): seq<Tok>
    requires IsPath(it, p)
    decreases p
  {
    if p == [] then [] else [TBegin(it.name, it.npad)] + FlatS(it.items[..p[0]]) + Pre(it.items[p[0]], p[1..])
  }

  function Post(it: Item, p: seq<nat>): seq<Tok>
    requires IsPath(it, p)
    decreases p
  {
    if p == [] then [] else Post(it.items[p[0]], p[1..]) + FlatS(it.items[p[0] + 1..]) + [TEnd]
  }

  lemma Nest<X>(a: seq<X>, b: seq<X>, c: seq<X>, d: seq<X>, e: seq<X>, f: seq<X>, g: seq<X>)
    ensures a + (b + (c + d + e) + f) + g == (a + b + c) + d + (e + f + g)
  {
    assert a + (b + (c + d + e) + f) + g == a + b + c + d + e + f + g;
    assert (a + b + c) + d + (e + f + g) == a + b + c + d + e + f + g;
  }

  lemma {:induction false} FlatAt(it: Item, p: seq<nat>)
    requires IsPath(it, p)
    ensures Flat(it) == Pre(it, p) + Flat(At(it, p)) + Post(it, p)
    decreases p
  {
    if p != [] {
      var k := p[0];
      FlatSSplit(it.items, k);
      FlatAt(it.items[k], p[1..]);
      Nest([TBegin(it.name, it.npad)], FlatS(it.items[..k]), Pre(it.items[k], p[1..]), Flat(At(it, p)),
           Post(it.items[k], p[1..]), FlatS(it.items[k + 1..]), [TEnd]);
    }
  }

  /** Replacing a node leaves every token around it alone. */
  lemma {:induction false} PutFrame(it: Item, p: seq<nat>, n: Item)
    requires IsPath(it, p) && n.Node?
    ensures var r := Put(it, p, n);
      IsPath(r, p) && At(r, p) == n && Pre(r, p) == Pre(it, p) && Post(r, p) == Post(it, p)
    decreases p
  {
    if p != [] {
      var k := p[0];
      PutFrame(it.items[k], p[1..], n);
      var r := Put(it, p, n);
      assert r.items[..k] == it.items[..k] && r.items[k + 1..] == it.items[k + 1..];
    }
  }

  lemma {:induction false} PutPut(it: Item, p: seq<nat>, n: Item, m: Item)
    requires IsPath(it, p) && n.Node? && m.Node?
    ensures IsPath(Put(it, p, n), p)
    ensures Put(Put(it, p, n), p, m) == Put(it, p, m)
    ensures Put(it, p, At(it, p)) == it
    decreases p
  {
    PutFrame(it, p, n);
    if p != [] {
      var k := p[0];
      PutPut(it.items[k], p[1..], n, m);
      var r := Put(it, p, n);
      assert r.items[k := Put(r.items[k], p[1..], m)] == it.items[k := Put(it.items[k], p[1..], m)];
      assert it.items[k := it.items[k]] == it.items;
    }
  }

  /** Paths compose. */
  lemma {:induction false} PathStep(it: Item, p: seq<nat>, q: seq<nat>)
    requires IsPath(it, p) && IsPath(At(it, p), q)
    ensures IsPath(it, p + q) && At(it, p + q) == At(At(it, p), q)
    ensures Pre(it, p + q) == Pre(it, p) + Pre(At(it, p), q)
    decreases p
  {
    if p == [] {
      assert p + q == q;
    } else {
      var k := p[0];
      assert (p + q)[0] == k && (p + q)[1..] == p[1..] + q;
      PathStep(it.items[k], p[1..], q);
      Assoc([TBegin(it.name, it.npad)] + FlatS(it.items[..k]), Pre(it.items[k], p[1..]), Pre(At(it, p), q));
    }
  }

  lemma {:induction false} PutStep(it: Item, p: seq<nat>, q: seq<nat>, n: Item)
    requires IsPath(it, p) && IsPath(At(it, p), q) && n.Node?
    ensures IsPath(it, p + q) && Put(it, p + q, n) == Put(it, p, Put(At(it, p), q, n))
    decreases p
  {
    PathStep(it, p, q);
    if p == [] {
      assert p + q == q;
    } else {
      assert (p + q)[0] == p[0] && (p + q)[1..] == p[1..] + q;
      PutStep(it.items[p[0]], p[1..], q, n);
    }
  }
}
