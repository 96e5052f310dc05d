/**
  The path strings fdt_find_regions compares with the list, and the trees it has room for.
 */
module RegionLaws {
  import opened Bytes
  import opened Tokens
  import opened Tree
  import opened Meaning
  import opened Blob
  import opened TreeWalk
  import opened Paths
  import opened OverlayTarget
  import opened Regions

  /** They are those of fdt_get_path: a slash for the root, else each name after a slash. */
  lemma ListedPath(root: Item, p: seq<nat>)
    requires IsPath(root, p) && root.name == [] && [] !in PathNames(root, p)[1..]
    ensures PathAt(root, [], p) == if p == [] then [SLASH] else SlashBefore(PathNames(root, p)[1..])
  {
    hide SlashBefore;
    if p != [] {
      var kid := root.items[p[0]];
      assert PathNames(root, p)[1..] == PathNames(kid, p[1..]);
      assert Entered([], root.name) == [SLASH];
      SameBelow(kid, p[1..]);
      PathFrom([], kid, p[1..]);
      assert [] + SlashBefore(PathNames(kid, p[1..])) == SlashBefore(PathNames(kid, p[1..]));
    }
  }

  lemma SameBelow(it: Item, p: seq<nat>)
    requires IsPath(it, p)
    ensures PathAt(it, [SLASH], p) == PathAt(it, [], p)
  {
    assert Entered([SLASH], it.name) == Entered([], it.name);
  }

  lemma NamesBelow(it: Item, p: seq<nat>)
    requires IsPath(it, p)
    ensures PathNames(it, p)[0] == it.name
    ensures PathNames(it, p)[1..] == if p == [] then [] else PathNames(it.items[p[0]], p[1..])
  {
  }

  lemma SlashHead(ns: seq<bytes>, path: bytes)
    requires ns != [] && [] !in ns
    ensures path + SlashBefore(ns) == (path + [SLASH] + ns[0]) + SlashBefore(ns[1..]) && ns[0] != [] && [] !in ns[1..]
  {
    assert ns[0] in ns;
  }

  /** From a path that is not just a slash down to the node at p. */
  lemma {:induction false} PathFrom(path: bytes, it: Item, p: seq<nat>)
    requires IsPath(it, p) && |path| != 1 && [] !in PathNames(it, p)
    ensures PathAt(it, path, p) == path + SlashBefore(PathNames(it, p))
    decreases p
  {
    hide SlashBefore, PathNames;
    var q := path + [SLASH] + it.name;
    NamesBelow(it, p);
    SlashHead(PathNames(it, p), path);
    if p == [] {
      assert q + SlashBefore([]) == q by { NoNames(q); }
    } else {
      PathFrom(q, it.items[p[0]], p[1..]);
    }
  }

  lemma NoNames(q: bytes)
    ensures q + SlashBefore([]) == q
  {
  }

  /** Node p is less than 32 levels deep, and its path and n more bytes are shorter than the path buffer. */
  predicate NodeFits(root: Item, p: seq<nat>, pathLen: nat, n: nat)
    requires IsPath(root, p)
  {
    |p| < 32 && |PathAt(root, [], p)| + n < pathLen
  }

  /**
    fdt_find_regions has room for every tree all of whose nodes fit with two bytes to spare, and
    only for trees whose nodes fit with one: the first child of the root needs the second byte.
   */
  lemma RoomFor(inc: seq<bytes>, root: Item, pathLen: nat)
    requires root.Node? && SlashFree(Block(root))
    ensures (forall p :: IsPath(root, p) ==> NodeFits(root, p, pathLen, 2)) ==> Fits(inc, Block(root), pathLen)
    ensures Fits(inc, Block(root), pathLen) ==> forall p :: IsPath(root, p) ==> NodeFits(root, p, pathLen, 1)
  {
    hide Flat, Block, PathAt, IsPath, StateAt, NodePos, SlashFree;
    var ts := Block(root);
    RootTokens(root);
    forall p | IsPath(root, p) && Fits(inc, ts, pathLen)
      ensures NodeFits(root, p, pathLen, 1)
    {
      NodeRoom(inc, root, p);
    }
    if forall p :: IsPath(root, p) ==> NodeFits(root, p, pathLen, 2) {
      forall k | 0 <= k < |ts| && ts[k].TBegin?
        ensures |StateAt(inc, ts, k).stack| < FDT_MAX_DEPTH && |StateAt(inc, ts, k).path| + 2 + |ts[k].name| < pathLen
      {
        var p := NodeOf(root, k);
        NodeRoom(inc, root, p);
        assert NodeFits(root, p, pathLen, 2);
      }
    }
  }

  lemma NodeOf(root: Item, k: nat) returns (p: seq<nat>)
    requires root.Node? && k < |Block(root)| && Block(root)[k].TBegin?
    ensures IsPath(root, p) && NodePos(root, p) == k
  {
    hide Flat, Pre;
    RootTokens(root);
    p := NodeOfTok(Block(root), 0, root, k);
  }

  /** The scan's depth and path length at a node. */
  lemma NodeRoom(inc: seq<bytes>, root: Item, p: seq<nat>)
    requires root.Node? && IsPath(root, p) && SlashFree(Block(root))
    ensures NodePos(root, p) < |Block(root)| && Block(root)[NodePos(root, p)].TBegin?
    ensures var k := NodePos(root, p); var s, n := StateAt(inc, Block(root), k), |Block(root)[k].name|;
      |s.stack| == |p| && |PathAt(root, [], p)| <= |s.path| + n + 1 <= |PathAt(root, [], p)| + 1
  {
    hide Flat, Block, PathAt, StateAt, SlashFree, Pre, At, Ancestors;
    NodeTokens(root, p);
    StateBefore(inc, root, p);
    StateDepth(inc, Block(root), NodePos(root, p));
    StackAt(root, p);
  }

  /** What a failure returns: BADSTRUCTURE if the first node that does not fit is too deep, else NOSPACE. */
  lemma {:induction false} FailsAt(inc: seq<bytes>, ts: seq<Tok>, k: nat, pathLen: nat) returns (i: nat)
    requires exists j :: k <= j < |ts| && !FitsAt(inc, ts, j, pathLen)
    ensures k <= i < |ts| && !FitsAt(inc, ts, i, pathLen) && forall j :: k <= j < i ==> FitsAt(inc, ts, j, pathLen)
    ensures FirstError(inc, ts, k, pathLen) == if |StateAt(inc, ts, i).stack| >= 32 then -FDT_ERR_BADSTRUCTURE else -FDT_ERR_NOSPACE
    decreases |ts| - k
  {
    hide StateAt;
    if FitsAt(inc, ts, k, pathLen) {
      i := FailsAt(inc, ts, k + 1, pathLen);
    } else {
      i := k;
    }
  }
}
