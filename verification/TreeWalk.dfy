/**
  What the token walks find in a tree: the bridge between Walk.dfy and the meaning.
 */
module TreeWalk {
  import opened Bytes
  import opened Tokens
  import opened Tree
  import opened Walk

  // ------------------------------------------------------------------ skipping subtrees

  lemma NodeParts(ts: seq<Tok>, j: nat, it: Item)
    requires Occurs(ts, j, Flat(it)) && it.Node?
    ensures |Flat(it)| == |FlatS(it.items)| + 2 && j + |Flat(it)| <= |ts|
    ensures ts[j] == TBegin(it.name, it.npad) && ts[j + 1 + |FlatS(it.items)|] == TEnd
    ensures Occurs(ts, j + 1, FlatS(it.items))
  {
    hide FlatS;
    var b, c := [TBegin(it.name, it.npad)], FlatS(it.items);
    OccursCat(ts, j, b + c, [TEnd]);
    OccursCat(ts, j, b, c);
    OccursAt(ts, j, b, 0);
    OccursAt(ts, j + 1 + |c|, [TEnd], 0);
  }

  lemma LeafPart(ts: seq<Tok>, j: nat, it: Item)
    requires Occurs(ts, j, Flat(it)) && !it.Node?
    ensures |Flat(it)| == 1 && j < |ts| && (ts[j].TNop? || ts[j].TProp?)
  {
    OccursAt(ts, j, Flat(it), 0);
  }

  /** Below the children of the starting node nothing can match. */
  lemma {:induction false} FindKidSkip(ts: seq<Tok>, j: nat, it: Item, d: nat, w: Want)
    requires Occurs(ts, j, Flat(it)) && (d > 0 || !it.Node? || !Matches(it.name, w))
    ensures FindKid(ts, j, d, w) == FindKid(ts, j + |Flat(it)|, d, w)
    decreases it, 1
  {
    hide Flat, FlatS, Occurs;
    if it.Node? {
      NodeParts(ts, j, it);
      FindKidSkipS(ts, j + 1, it.items, d + 1, w);
    } else {
      LeafPart(ts, j, it);
    }
  }

  lemma {:induction false} FindKidSkipS(ts: seq<Tok>, j: nat, its: seq<Item>, d: nat, w: Want)
    requires Occurs(ts, j, FlatS(its)) && d > 0
    ensures FindKid(ts, j, d, w) == FindKid(ts, j + |FlatS(its)|, d, w)
    decreases its, 0
  {
    hide Flat, Occurs;
    if its != [] {
      OccursCat(ts, j, Flat(its[0]), FlatS(its[1..]));
      FindKidSkip(ts, j, its[0], d, w);
      FindKidSkipS(ts, j + |Flat(its[0])|, its[1..], d, w);
    }
  }

  lemma {:induction false} EndOfSkip(ts: seq<Tok>, j: nat, it: Item, d: nat)
    requires Occurs(ts, j, Flat(it))
    ensures EndOf(ts, j, d) == EndOf(ts, j + |Flat(it)|, d)
    decreases it, 1
  {
    hide Flat, FlatS, Occurs;
    if it.Node? {
      NodeParts(ts, j, it);
      EndOfSkipS(ts, j + 1, it.items, d + 1);
    } else {
      LeafPart(ts, j, it);
    }
  }

  lemma {:induction false} EndOfSkipS(ts: seq<Tok>, j: nat, its: seq<Item>, d: nat)
    requires Occurs(ts, j, FlatS(its))
    ensures EndOf(ts, j, d) == EndOf(ts, j + |FlatS(its)|, d)
    decreases its, 0
  {
    hide Flat, Occurs;
    if its != [] {
      OccursCat(ts, j, Flat(its[0]), FlatS(its[1..]));
      EndOfSkip(ts, j, its[0], d);
      EndOfSkipS(ts, j + |Flat(its[0])|, its[1..], d);
    }
  }

  // ------------------------------------------------------------------ children

  /** The first wanted child among items; |its| if there is none. */
  function KidIdx(its: seq<Item>, w: Want): (k: nat)
    ensures k <= |its|
    ensures k < |its| ==> its[k].Node? && Matches(its[k].name, w)
    ensures forall i :: 0 <= i < k && its[i].Node? ==> !Matches(its[i].name, w)
  {
    if its == [] then 0
    else if its[0].Node? && Matches(its[0].name, w) then 0
    else 1 + KidIdx(its[1..], w)
  }

  lemma FoundHere(ts: seq<Tok>, j: nat, w: Want)
    requires j < |ts| && ts[j].TBegin? && Matches(ts[j].name, w)
    ensures FindKid(ts, j, 0, w) == j
  {
  }

  lemma NoTokens(its: seq<Item>)
    ensures its == [] ==> FlatS(its) == []
  {
  }

  lemma FlatFirst(its: seq<Item>)
    requires its != []
    ensures FlatS(its) == Flat(its[0]) + FlatS(its[1..])
  {
  }

  lemma KidIdxStep(its: seq<Item>, w: Want)
    ensures KidIdx(its, w) == if its == [] || (its[0].Node? && Matches(its[0].name, w)) then 0 else 1 + KidIdx(its[1..], w)
  {
  }

  lemma FlatPrefix(its: seq<Item>, k: nat)
    requires its != [] && k <= |its[1..]|
    ensures |FlatS(its[..k + 1])| == |Flat(its[0])| + |FlatS(its[1..][..k])|
  {
    hide Flat;
    assert its[..k + 1][0] == its[0] && its[..k + 1][1..] == its[1..][..k];
  }

  lemma {:induction false} FindKidItems(ts: seq<Tok>, j: nat, its: seq<Item>, w: Want)
    requires Occurs(ts, j, FlatS(its))
    ensures FindKid(ts, j, 0, w) == var k := KidIdx(its, w);
      if k < |its| then j + |FlatS(its[..k])| else FindKid(ts, j + |FlatS(its)|, 0, w)
    decreases its
  {
    hide Flat, FlatS, Occurs, FindKid, Matches, KidIdx;
    KidIdxStep(its, w);
    if its == [] {
      NoTokens(its);
    } else {
      FlatFirst(its);
      OccursCat(ts, j, Flat(its[0]), FlatS(its[1..]));
      if its[0].Node? && Matches(its[0].name, w) {
        NodeParts(ts, j, its[0]);
        FoundHere(ts, j, w);
        NoTokens(its[..0]);
      } else {
        var k := KidIdx(its[1..], w);
        FindKidSkip(ts, j, its[0], 0, w);
        FindKidItems(ts, j + |Flat(its[0])|, its[1..], w);
        FlatPrefix(its, k);
      }
    }
  }

  // ------------------------------------------------------------------ positions in a block

  /** The tokens before item k of the node at p. */
  function ItemPre(root: Item, p: seq<nat>, k: nat): seq<Tok>
    requires IsPath(root, p) && k <= |At(root, p).items|
  {
    Pre(root, p) + ([TBegin(At(root, p).name, At(root, p).npad)] + FlatS(At(root, p).items[..k]))
  }

  /** The token index of the node at p, and of item k of that node. */
  function NodePos(root: Item, p: seq<nat>): nat
    requires IsPath(root, p)
  {
    |Pre(root, p)|
  }

  function ItemPos(root: Item, p: seq<nat>, k: nat): nat
    requires IsPath(root, p) && k <= |At(root, p).items|
  {
    NodePos(root, p) + 1 + |FlatS(At(root, p).items[..k])|
  }

  /** Their byte offsets in the structure block. */
  function NodeOff(root: Item, p: seq<nat>): nat
    requires IsPath(root, p)
  {
    |Enc(Pre(root, p))|
  }

  function ItemOff(root: Item, p: seq<nat>, k: nat): nat
    requires IsPath(root, p) && k <= |At(root, p).items|
  {
    |Enc(ItemPre(root, p, k))|
  }

  /** Where the tokens of a node lie in the block. */
  lemma NodeTokens(root: Item, p: seq<nat>)
    requires IsPath(root, p)
    ensures var ts, i, n := Block(root), NodePos(root, p), At(root, p);
      && Occurs(ts, i, Flat(n)) && |Flat(n)| == |FlatS(n.items)| + 2 && i + |Flat(n)| < |ts|
      && ts[i] == TBegin(n.name, n.npad) && Occurs(ts, i + 1, FlatS(n.items))
      && ts[i + 1 + |FlatS(n.items)|] == TEnd
      && ItemPos(root, p, |n.items|) == i + 1 + |FlatS(n.items)|
      && Off(ts, i) == NodeOff(root, p)
    ensures Block(root) == Pre(root, p) + Flat(At(root, p)) + (Post(root, p) + [TFin])
  {
    hide Flat, FlatS, Pre, Post, Enc;
    var n := At(root, p);
    FlatAt(root, p);
    Assoc(Pre(root, p) + Flat(n), Post(root, p), [TFin]);
    Middle(Pre(root, p), Flat(n), Post(root, p) + [TFin]);
    NodeParts(Block(root), NodePos(root, p), n);
    assert n.items[..|n.items|] == n.items;
  }

  /** The tokens after the last item of the node at p. */
  function Tail(root: Item, p: seq<nat>): seq<Tok>
    requires IsPath(root, p)
  {
    [TEnd] + (Post(root, p) + [TFin])
  }

  lemma Regroup<X>(a: seq<X>, b: seq<X>, c: seq<X>, d: seq<X>, e: seq<X>, r: seq<X>)
    ensures a + ((b + (c + d)) + e) + r == (a + (b + c)) + d + (e + r)
  {
    assert a + ((b + (c + d)) + e) + r == a + b + c + d + e + r;
    assert (a + (b + c)) + d + (e + r) == a + b + c + d + e + r;
  }

  /** The block around item k of the node at p. */
  lemma BlockAt(root: Item, p: seq<nat>, k: nat)
    requires IsPath(root, p) && k <= |At(root, p).items|
    ensures Block(root) == ItemPre(root, p, k) + FlatS(At(root, p).items[k..]) + Tail(root, p)
    ensures |ItemPre(root, p, k)| == ItemPos(root, p, k) < |Block(root)|
    ensures Block(root)[..ItemPos(root, p, k)] == ItemPre(root, p, k)
    ensures Off(Block(root), ItemPos(root, p, k)) == ItemOff(root, p, k)
  {
    hide Flat, FlatS, Pre, Post, Block, Occurs, Enc;
    var n := At(root, p);
    NodeTokens(root, p);
    assert n.items == n.items[..k] + n.items[k..];
    FlatSConcat(n.items[..k], n.items[k..]);
    FlatNode(n);
    Regroup(Pre(root, p), [TBegin(n.name, n.npad)], FlatS(n.items[..k]), FlatS(n.items[k..]), [TEnd], Post(root, p) + [TFin]);
    Middle(ItemPre(root, p, k), FlatS(n.items[k..]), Tail(root, p));
  }

  lemma FlatNode(n: Item)
    requires n.Node?
    ensures Flat(n) == [TBegin(n.name, n.npad)] + FlatS(n.items) + [TEnd]
  {
  }

  /** The items from k on, up to the node's END_NODE. */
  lemma RestTokens(root: Item, p: seq<nat>, k: nat)
    requires IsPath(root, p) && k <= |At(root, p).items|
    ensures var its := At(root, p).items; var e := ItemPos(root, p, |its|);
      Occurs(Block(root), ItemPos(root, p, k), FlatS(its[k..])) && ItemPos(root, p, k) + |FlatS(its[k..])| == e &&
      e < |Block(root)| && Block(root)[e] == TEnd && Off(Block(root), ItemPos(root, p, k)) == ItemOff(root, p, k)
  {
    hide Flat, FlatS, Pre, Post, Block, Enc;
    var its := At(root, p).items;
    BlockAt(root, p, k);
    Middle(ItemPre(root, p, k), FlatS(its[k..]), Tail(root, p));
    assert its == its[..k] + its[k..] && its[..|its|] == its;
    FlatSConcat(its[..k], its[k..]);
    NodeTokens(root, p);
  }

  lemma ItemTokens(root: Item, p: seq<nat>, k: nat)
    requires IsPath(root, p) && k < |At(root, p).items|
    ensures var its := At(root, p).items;
      && Occurs(Block(root), ItemPos(root, p, k), Flat(its[k]))
      && ItemPos(root, p, k + 1) == ItemPos(root, p, k) + |Flat(its[k])|
      && Off(Block(root), ItemPos(root, p, k)) == ItemOff(root, p, k)
    ensures At(root, p).items[k].Node? ==> IsPath(root, p + [k]) && At(root, p + [k]) == At(root, p).items[k] &&
                                           NodePos(root, p + [k]) == ItemPos(root, p, k) && NodeOff(root, p + [k]) == ItemOff(root, p, k)
  {
    hide Flat, FlatS, Occurs, Block, Enc, Pre, Post, Off, ItemOff, NodeOff;
    var its := At(root, p).items;
    RestTokens(root, p, k);
    assert its[k..] == [its[k]] + its[k + 1..];
    FlatSConcat([its[k]], its[k + 1..]);
    FlatSOne(its[k]);
    OccursCat(Block(root), ItemPos(root, p, k), Flat(its[k]), FlatS(its[k + 1..]));
    assert its[..k + 1] == its[..k] + [its[k]];
    FlatSConcat(its[..k], [its[k]]);
    if its[k].Node? {
      KidPath(root, p, k);
    }
  }

  lemma KidPath(root: Item, p: seq<nat>, k: nat)
    requires IsPath(root, p) && k < |At(root, p).items| && At(root, p).items[k].Node?
    ensures IsPath(root, p + [k]) && At(root, p + [k]) == At(root, p).items[k]
    ensures NodePos(root, p + [k]) == ItemPos(root, p, k) && NodeOff(root, p + [k]) == ItemOff(root, p, k)
    ensures Pre(root, p + [k]) == ItemPre(root, p, k)
  {
    hide Flat, FlatS, Enc;
    PathStep(root, p, [k]);
    var n := At(root, p);
    assert Pre(n, [k]) == [TBegin(n.name, n.npad)] + FlatS(n.items[..k]) + [];
    assert Pre(root, p + [k]) == ItemPre(root, p, k);
  }

  lemma FlatSOne(it: Item)
    ensures FlatS([it]) == Flat(it)
  {
    assert [it][1..] == [];
  }

  // ------------------------------------------------------------------ walks from a node of the tree

  /** Searching a node's children finds its first wanted child, or nothing. */
  lemma FindKidAt(root: Item, p: seq<nat>, w: Want)
    requires IsPath(root, p)
    ensures var its, k := At(root, p).items, KidIdx(At(root, p).items, w);
      FindKid(Block(root), NodePos(root, p) + 1, 0, w) == if k < |its| then ItemPos(root, p, k) else -1
  {
    hide Flat, FlatS, Occurs, Pre, Post, Block, At, IsPath, KidIdx, Matches;
    NodeTokens(root, p);
    FindKidItems(Block(root), NodePos(root, p) + 1, At(root, p).items, w);
  }

  /** From inside child k at depth 1 the scan comes out at depth 0 after it. */
  lemma LeaveKid(root: Item, p: seq<nat>, k: nat)
    requires IsPath(root, p) && k < |At(root, p).items| && At(root, p).items[k].Node?
    ensures FindKid(Block(root), ItemPos(root, p, k) + 1, 1, Any) == FindKid(Block(root), ItemPos(root, p, k + 1), 0, Any)
  {
    hide Flat, FlatS, Occurs, Pre, Post, Block, Enc, Off, ItemOff, NodeOff, ItemPos;
    ItemTokens(root, p, k);
    NodeParts(Block(root), ItemPos(root, p, k), At(root, p).items[k]);
    FindKidSkipS(Block(root), ItemPos(root, p, k) + 1, At(root, p).items[k].items, 1, Any);
  }

  /** Going on from child k finds the next child. */
  lemma NextKidAt(root: Item, p: seq<nat>, k: nat)
    requires IsPath(root, p) && k < |At(root, p).items| && At(root, p).items[k].Node?
    ensures var its := At(root, p).items;
      var m := k + 1 + KidIdx(its[k + 1..], Any);
      FindKid(Block(root), ItemPos(root, p, k) + 1, 1, Any) == if m < |its| then ItemPos(root, p, m) else -1
  {
    hide Flat, FlatS, Occurs, Pre, Post, Block, Enc, Off, ItemOff, NodeOff;
    var its := At(root, p).items;
    var r := its[k + 1..];
    LeaveKid(root, p, k);
    RestTokens(root, p, k + 1);
    FindKidItems(Block(root), ItemPos(root, p, k + 1), r, Any);
    var m := KidIdx(r, Any);
    assert its[..k + 1] + r[..m] == its[..k + 1 + m];
    FlatSConcat(its[..k + 1], r[..m]);
  }

  /** A node ends where its last token does. */
  lemma EndOfAt(root: Item, p: seq<nat>)
    requires IsPath(root, p)
    ensures EndOf(Block(root), NodePos(root, p) + 1, 0) == NodePos(root, p) + |Flat(At(root, p))|
  {
    hide FlatS, Occurs, Pre, Post, Block;
    NodeTokens(root, p);
    EndOfSkipS(Block(root), NodePos(root, p) + 1, At(root, p).items, 0);
  }

  lemma RootTokens(root: Item)
    requires root.Node?
    ensures var ts := Block(root); Occurs(ts, 0, Flat(root)) && |ts| == |Flat(root)| + 1 && ts[|ts| - 1] == TFin && IsPath(root, [])
  {
    hide Flat;
    Middle([], Flat(root), [TFin]);
    assert [] + Flat(root) + [TFin] == Block(root);
  }

  lemma RootPath(root: Item)
    requires root.Node?
    ensures IsPath(root, []) && At(root, []) == root && NodeOff(root, []) == 0
  {
  }
}
