/**
  Editing a blob: a run of items of one node is replaced by others.  Every writer of fdt_rw.c and
  fdt_wip.c is an instance; what remains to show for each is which bytes it leaves where.
 */
module Edit {
  import opened Bytes
  import opened Tokens
  import opened Tree
  import opened Meaning
  import opened Blob
  import opened TreeWalk

  // ------------------------------------------------------------------ replacing items

  /** The node with items k..e replaced. */
  function Replace(n: Item, k: nat, e: nat, ins: seq<Item>): (r: Item)
    requires n.Node? && k <= e <= |n.items|
    ensures r.Node?
  {
    n.(items := n.items[..k] + ins + n.items[e..])
  }

  /** The encoded items before, the ones replaced, and everything after. */
  lemma SplitAt(root: Item, p: seq<nat>, k: nat, e: nat)
    requires IsPath(root, p) && k <= e <= |At(root, p).items|
    ensures var its := At(root, p).items;
      Enc(Block(root)) == Enc(ItemPre(root, p, k)) + Enc(FlatS(its[k..e])) + Enc(FlatS(its[e..]) + Tail(root, p))
    ensures ItemOff(root, p, e) == ItemOff(root, p, k) + |Enc(FlatS(At(root, p).items[k..e]))|
  {
    hide Flat, FlatS, Enc, Pre, Post, Block, Tail;
    var its := At(root, p).items;
    BlockAt(root, p, k);
    assert its[k..] == its[k..e] + its[e..];
    FlatSConcat(its[k..e], its[e..]);
    var a, b, c, d := ItemPre(root, p, k), FlatS(its[k..e]), FlatS(its[e..]), Tail(root, p);
    assert a + (b + c) + d == (a + b) + (c + d) by {
      Assoc(a, b, c);
      Assoc(a + b, c, d);
    }
    EncConcat(a + b, c + d);
    EncConcat(a, b);
    assert its[..e] == its[..k] + its[k..e];
    FlatSConcat(its[..k], its[k..e]);
    var n := At(root, p);
    PreShift(Pre(root, p), [TBegin(n.name, n.npad)], FlatS(its[..k]), b);
    assert ItemPre(root, p, e) == a + b;
  }

  lemma PreShift<X>(a: seq<X>, b: seq<X>, c: seq<X>, d: seq<X>)
    ensures a + (b + (c + d)) == a + (b + c) + d
  {
    Assoc(b, c, d);
    Assoc(a, b + c, d);
  }

  /** The block after the replacement. */
  lemma ReplacedBlock(root: Item, p: seq<nat>, k: nat, e: nat, ins: seq<Item>)
    requires IsPath(root, p) && k <= e <= |At(root, p).items|
    ensures var r := Put(root, p, Replace(At(root, p), k, e, ins));
      && IsPath(r, p) && At(r, p) == Replace(At(root, p), k, e, ins)
      && ItemPre(r, p, k) == ItemPre(root, p, k) && Tail(r, p) == Tail(root, p)
      && Enc(Block(r)) == Enc(ItemPre(root, p, k)) + Enc(FlatS(ins)) + Enc(FlatS(At(root, p).items[e..]) + Tail(root, p))
  {
    hide Flat, FlatS, Enc, Pre, Post, Block;
    var n := Replace(At(root, p), k, e, ins);
    var r := Put(root, p, n);
    PutFrame(root, p, n);
    var its := At(root, p).items;
    assert n.items[..k] == its[..k] && n.items[k..k + |ins|] == ins && n.items[k + |ins|..] == its[e..];
    SplitAt(r, p, k, k + |ins|);
  }

  /** The three parts in place make the ins block. */
  lemma Rebuild(h: Header, m: bytes, root: Item, l: seq<Rsv>, h': Header, m': bytes, x: bytes,
                p: seq<nat>, k: nat, e: nat, ins: seq<Item>)
    requires Wf(h, m, root, l) && IsPath(root, p) && k <= e <= |At(root, p).items|
    requires Laid(h', m') && StringsOf(h', m') == StringsOf(h, m) + x
    requires h'.magic == h.magic && h'.version == h.version && h'.lastComp == h.lastComp
    requires h'.offRsv == h.offRsv && h'.offStruct == h.offStruct && Occurs(m', h.offRsv, RsvBlock(l))
    requires OkItems(StringsOf(h', m'), ins) && PropsFirst(Replace(At(root, p), k, e, ins).items)
    requires var a, b, c := Enc(ItemPre(root, p, k)), Enc(FlatS(ins)), Enc(FlatS(At(root, p).items[e..]) + Tail(root, p));
      && h'.sizeStruct == |a| + |b| + |c|
      && Occurs(m', h.offStruct, a) && Occurs(m', h.offStruct + |a|, b) && Occurs(m', h.offStruct + |a| + |b|, c)
    ensures var n := Replace(At(root, p), k, e, ins); var r := Put(root, p, n);
      && Wf(h', m', r, l) && IsPath(r, p) && At(r, p) == n && ItemPre(r, p, k) == ItemPre(root, p, k)
  {
    hide Flat, FlatS, Enc, Pre, Post, Block, StringsOf, RsvBlock, ItemPre, OkRsv, OkItem, PropsFirst, Put, At, Replace, IsPath, Tail, Occurs;
    ReplacedBlock(root, p, k, e, ins);
    OccursCat(m', h.offStruct, Enc(ItemPre(root, p, k)), Enc(FlatS(ins)));
    OccursCat(m', h.offStruct, Enc(ItemPre(root, p, k)) + Enc(FlatS(ins)), Enc(FlatS(At(root, p).items[e..]) + Tail(root, p)));
    OkGrow(StringsOf(h, m), x, root);
    OkReplace(StringsOf(h', m'), root, p, k, e, ins);
  }

  lemma OkReplace(t: bytes, root: Item, p: seq<nat>, k: nat, e: nat, ins: seq<Item>)
    requires OkItem(t, root) && IsPath(root, p) && k <= e <= |At(root, p).items|
    requires OkItems(t, ins) && PropsFirst(Replace(At(root, p), k, e, ins).items)
    ensures OkItem(t, Put(root, p, Replace(At(root, p), k, e, ins)))
  {
    var n := At(root, p);
    var r := Replace(n, k, e, ins);
    OkPut(t, root, p, root);
    forall i | 0 <= i < |r.items|
      ensures OkItem(t, r.items[i])
    {
      if i < k {
        assert r.items[i] == n.items[i];
      } else if i < k + |ins| {
        assert r.items[i] == ins[i - k];
      } else {
        assert r.items[i] == n.items[i - k - |ins| + e];
      }
    }
    OkPut(t, root, p, r);
  }

  // ------------------------------------------------------------------ a block with a hole

  /**
    The structure block is a, then n bytes still to be filled, then c; the strings t, the
    reservations l and the rest of header g are in place.
   */
  ghost predicate Torn(h: Header, m: bytes, g: Header, t: bytes, l: seq<Rsv>, a: bytes, n: nat, c: bytes) {
    && Laid(h, m) && StringsOf(h, m) == t && Occurs(m, h.offRsv, RsvBlock(l))
    && h == g.(sizeStruct := h.sizeStruct, offStrings := h.offStrings, sizeStrings := h.sizeStrings)
    && h.offRsv + |RsvBlock(l)| <= h.offStruct
    && h.sizeStruct == |a| + n + |c|
    && Occurs(m, h.offStruct, a) && Occurs(m, h.offStruct + |a| + n, c)
  }

  /** Stores into the hole keep the rest. */
  lemma TornWrite(h: Header, m: bytes, g: Header, t: bytes, l: seq<Rsv>, a: bytes, n: nat, c: bytes, at: nat, v: bytes)
    requires Torn(h, m, g, t, l, a, n, c)
    requires h.offStruct + |a| <= at && at + |v| <= h.offStruct + |a| + n
    ensures Torn(h, Written(m, at, v), g, t, l, a, n, c)
  {
    hide Written, EncRsv, RsvBlock;
    WrittenKeeps(m, at, v, h.offRsv, RsvBlock(l));
    WrittenKeeps(m, at, v, h.offStruct, a);
    WrittenKeeps(m, at, v, h.offStruct + |a| + n, c);
    WrittenKeeps(m, at, v, h.offStrings, t);
  }

  /** The hole replaces items k..e of the node at p of a well-formed blob, whose strings x was appended to. */
  ghost predicate Opened(h: Header, m: bytes, g: Header, w: bytes, root: Item, l: seq<Rsv>, x: bytes, p: seq<nat>, k: nat, e: nat, n: nat) {
    && Wf(g, w, root, l) && IsPath(root, p) && k <= e <= |At(root, p).items|
    && Torn(h, m, g, StringsOf(g, w) + x, l, Enc(ItemPre(root, p, k)), n, Enc(FlatS(At(root, p).items[e..]) + Tail(root, p)))
  }

  /** The index of the hole in the buffer. */
  function HoleAt(g: Header, root: Item, p: seq<nat>, k: nat): nat
    requires IsPath(root, p) && k <= |At(root, p).items|
  {
    g.offStruct + ItemOff(root, p, k)
  }

  /** r is root with items k..e of the node at p replaced by ins, held by h and m. */
  ghost predicate Replaced(h: Header, m: bytes, root: Item, l: seq<Rsv>, p: seq<nat>, k: nat, e: nat, ins: seq<Item>, r: Item) {
    && IsPath(root, p) && k <= e <= |At(root, p).items|
    && r == Put(root, p, Replace(At(root, p), k, e, ins)) && Wf(h, m, r, l)
    && IsPath(r, p) && At(r, p) == Replace(At(root, p), k, e, ins) && ItemPre(r, p, k) == ItemPre(root, p, k)
  }

  lemma OpenedIs(h: Header, m: bytes, g: Header, w: bytes, root: Item, l: seq<Rsv>, x: bytes, p: seq<nat>, k: nat, e: nat, n: nat)
    requires Opened(h, m, g, w, root, l, x, p, k, e, n)
    ensures Wf(g, w, root, l) && IsPath(root, p) && k <= e <= |At(root, p).items| && HoleAt(g, root, p, k) + n <= |m|
    ensures h.offStruct == g.offStruct && h.totalsize == g.totalsize && StringsOf(h, m) == StringsOf(g, w) + x
  {
  }

  /** The filled hole closes the block. */
  lemma TornClose(h: Header, m: bytes, g: Header, w: bytes, root: Item, l: seq<Rsv>, x: bytes,
                  p: seq<nat>, k: nat, e: nat, ins: seq<Item>)
    requires Opened(h, m, g, w, root, l, x, p, k, e, |Enc(FlatS(ins))|)
    requires Occurs(m, HoleAt(g, root, p, k), Enc(FlatS(ins)))
    requires OkItems(StringsOf(g, w) + x, ins) && PropsFirst(Replace(At(root, p), k, e, ins).items)
    ensures Replaced(h, m, root, l, p, k, e, ins, Put(root, p, Replace(At(root, p), k, e, ins)))
  {
    hide Flat, FlatS, Enc, Pre, Post, Block, StringsOf, RsvBlock, ItemPre;
    Rebuild(g, w, root, l, h, m, x, p, k, e, ins);
  }

  /** The header and bytes after fdt_splice_struct_. */
  function StructGrown(h: Header, oldlen: nat, newlen: nat): Header
    requires oldlen <= h.sizeStruct && oldlen <= h.offStrings
  {
    h.(sizeStruct := h.sizeStruct - oldlen + newlen, offStrings := h.offStrings - oldlen + newlen)
  }

  /** Splicing the structure block opens a hole of newlen bytes; the bytes before its end stay. */
  lemma SpliceTorn(h: Header, m: bytes, l: seq<Rsv>, a: bytes, oldlen: nat, newlen: nat, c: bytes)
    requires Laid(h, m) && h.offRsv + |RsvBlock(l)| <= h.offStruct && Occurs(m, h.offRsv, RsvBlock(l))
    requires h.sizeStruct == |a| + oldlen + |c| && DataSize(h) - oldlen + newlen <= h.totalsize
    requires Occurs(m, h.offStruct, a) && Occurs(m, h.offStruct + |a| + oldlen, c)
    ensures var p := h.offStruct + |a|;
      Torn(StructGrown(h, oldlen, newlen), Moved(m, p + newlen, p + oldlen, DataSize(h) - p - oldlen), h, StringsOf(h, m), l, a, newlen, c)
  {
    hide Moved, EncRsv, RsvBlock, StringsOf, Occurs;
    var p := h.offStruct + |a|;
    var n := DataSize(h) - p - oldlen;
    StringsAt(h, m, StringsOf(h, m));
    StringsAt(StructGrown(h, oldlen, newlen), Moved(m, p + newlen, p + oldlen, n), StringsOf(h, m));
    MovedBefore(m, p + newlen, p + oldlen, n, h.offRsv, RsvBlock(l));
    MovedBefore(m, p + newlen, p + oldlen, n, h.offStruct, a);
    MovedTo(m, p + newlen, p + oldlen, n, p + oldlen, c);
    MovedTo(m, p + newlen, p + oldlen, n, h.offStrings, StringsOf(h, m));
  }

  /** The bytes before, of, and after items k..e of the node at p. */
  lemma SplitOccurs(h: Header, m: bytes, root: Item, l: seq<Rsv>, p: seq<nat>, k: nat, e: nat)
    requires Wf(h, m, root, l) && IsPath(root, p) && k <= e <= |At(root, p).items|
    ensures var a, b, c := Enc(ItemPre(root, p, k)), Enc(FlatS(At(root, p).items[k..e])), Enc(FlatS(At(root, p).items[e..]) + Tail(root, p));
      && h.sizeStruct == |a| + |b| + |c| && ItemOff(root, p, k) == |a| && ItemOff(root, p, e) == |a| + |b|
      && Occurs(m, h.offStruct, a) && Occurs(m, h.offStruct + |a|, b) && Occurs(m, h.offStruct + |a| + |b|, c)
  {
    hide Flat, FlatS, Enc, Pre, Post, Block, StringsOf, RsvBlock, ItemPre, Tail, Occurs;
    var a, b, c := Enc(ItemPre(root, p, k)), Enc(FlatS(At(root, p).items[k..e])), Enc(FlatS(At(root, p).items[e..]) + Tail(root, p));
    SplitAt(root, p, k, e);
    OccursCat(m, h.offStruct, a + b, c);
    OccursCat(m, h.offStruct, a, b);
  }

  /** A store into the hole. */
  lemma OpenedWrite(h: Header, m: bytes, g: Header, w: bytes, root: Item, l: seq<Rsv>, x: bytes,
                    p: seq<nat>, k: nat, e: nat, n: nat, at: nat, v: bytes)
    requires Opened(h, m, g, w, root, l, x, p, k, e, n)
    requires HoleAt(g, root, p, k) <= at && at + |v| <= HoleAt(g, root, p, k) + n
    ensures at + |v| <= |m| && Opened(h, Written(m, at, v), g, w, root, l, x, p, k, e, n)
  {
    hide Enc, FlatS, Wf, StringsOf, RsvBlock, ItemPre, Written;
    TornWrite(h, m, g, StringsOf(g, w) + x, l, Enc(ItemPre(root, p, k)), n, Enc(FlatS(At(root, p).items[e..]) + Tail(root, p)), at, v);
  }
}
