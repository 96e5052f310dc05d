/**
  Properties of a node: the scans of fdt_ro.c.
 */
module Props {
  import opened Bytes
  import opened Tokens
  import opened Tree
  import opened Meaning
  import opened Blob
  import opened Scan
  import opened Walk
  import opened TreeWalk

  /** nextprop_ from token j: the next property; -1 if a node starts or ends first, -2 at FDT_END. */
  function PropFrom(ts: seq<Tok>, j: nat): (r: int)
    ensures -2 <= r < |ts| && (r >= 0 ==> j <= r && ts[r].TProp?)
    decreases |ts| - j
  {
    if j >= |ts| then -2
    else match ts[j]
      case TNop => PropFrom(ts, j + 1)
      case TProp(_, _, _) => j
      case TFin => -2
      case _ => -1
  }

  /** The error nextprop_ returns when PropFrom finds nothing. */
  function NoProp(r: int): int {
    if r == -2 then -FDT_ERR_BADSTRUCTURE else -FDT_ERR_NOTFOUND
  }

  method NextProp(f: Fdt, start: nat, ghost ts: seq<Tok>, ghost i: nat) returns (r: int)
    requires Scannable(f, ts) && Closed(ts) && i < |ts| && start == Off(ts, i)
    ensures var j := PropFrom(ts, i); r == if j < 0 then NoProp(j) else Off(ts, j)
  {
    hide Enc, Off;
    var offset := start;
    ghost var j := i;
    var tag := FDT_NOP;
    while tag == FDT_NOP
      invariant 0 <= j < |ts| && PropFrom(ts, i) == PropFrom(ts, j)
      invariant if tag == FDT_NOP then offset == Off(ts, j) else PropFrom(ts, j) == -1
      decreases tag == FDT_NOP, |ts| - j
    {
      var nextoffset;
      tag, nextoffset := NextTag(f, offset, ts, j);
      if tag == FDT_END {
        if nextoffset >= 0 { return -FDT_ERR_BADSTRUCTURE; }
        return nextoffset;
      }
      if tag == FDT_PROP { return offset; }
      offset := nextoffset;
      if tag == FDT_NOP { j := j + 1; }
    }
    return -FDT_ERR_NOTFOUND;
  }

  // ------------------------------------------------------------------ items

  /** The first property at or after item k, looking no further than a subnode. */
  function NextPropIdx(its: seq<Item>, k: nat): (r: nat)
    requires k <= |its|
    ensures k <= r <= |its|
    ensures r < |its| ==> its[r].Prop?
    ensures PropsFirst(its) ==> forall i :: k <= i < r ==> !its[i].Prop?
    decreases |its| - k
  {
    if k == |its| then k
    else match its[k]
      case Nop => NextPropIdx(its, k + 1)
      case Prop(_, _, _) => k
      case Node(_, _, _) => |its|
  }

  lemma {:induction false} PropFromItems(root: Item, p: seq<nat>, k: nat)
    requires IsPath(root, p) && k <= |At(root, p).items|
    ensures var its := At(root, p).items;
      var m := NextPropIdx(its, k);
      PropFrom(Block(root), ItemPos(root, p, k)) == if m < |its| then ItemPos(root, p, m) else -1
    ensures var m := NextPropIdx(At(root, p).items, k);
      ItemPos(root, p, m) < |Block(root)| && Off(Block(root), ItemPos(root, p, m)) == ItemOff(root, p, m)
    decreases |At(root, p).items| - k
  {
    hide Flat, FlatS, Occurs, Pre, Post, Block, At, ItemPos, ItemOff, Enc, Off;
    var its := At(root, p).items;
    NodeTokens(root, p);
    RestTokens(root, p, NextPropIdx(its, k));
    if k == |its| {
      RestTokens(root, p, k);
    } else {
      ItemTokens(root, p, k);
      match its[k]
      case Nop =>
        LeafTok(Block(root), ItemPos(root, p, k), its[k]);
        PropFromItems(root, p, k + 1);
      case Prop(_, _, _) =>
        LeafTok(Block(root), ItemPos(root, p, k), its[k]);
      case Node(_, _, _) =>
        NodeParts(Block(root), ItemPos(root, p, k), its[k]);
    }
  }

  lemma LeafTok(ts: seq<Tok>, j: nat, it: Item)
    requires Occurs(ts, j, Flat(it)) && !it.Node?
    ensures |Flat(it)| == 1 && j < |ts| && ts[j] == if it.Nop? then TNop else TProp(it.nameoff, it.value, it.ppad)
  {
    OccursAt(ts, j, Flat(it), 0);
  }

  // ------------------------------------------------------------------ names of properties

  method MemChr(mem: array<byte>, at: nat, n: nat) returns (k: int)
    requires at + n <= mem.Length
    ensures if k < 0 then forall i :: at <= i < at + n ==> mem[i] != 0
            else k < n && mem[at + k] == 0 && forall i :: at <= i < at + k ==> mem[i] != 0
  {
    k := 0;
    while k < n && mem[at + k] != 0
      invariant 0 <= k <= n
      invariant forall i :: at <= i < at + k ==> mem[i] != 0
    {
      k := k + 1;
    }
    if k == n { return -1; }
  }

  /** fdt_get_string of a complete blob: the bytes of the name, found with or without the checks. */
  method GetString(f: Fdt, stroffset: nat) returns (s: Ptr, len: int)
    requires Laid(f.hdr, f.mem[..]) && Probed(f) && Terminated(f.Strings(), stroffset)
    ensures s == Ptr.Ptr(f.hdr.offStrings + stroffset) && len == |StrAt(f.Strings(), stroffset)|
    ensures Occurs(f.mem[..], s.at, StrAt(f.Strings(), stroffset) + [0])
  {
    hide StrAt, Terminated, NoNul, Occurs, RoProbe;
    ghost var name := StrAt(f.Strings(), stroffset);
    NameInStrings(f.hdr, f.mem[..], stroffset);
    if !f.ChkExtra() {
      s := Ptr.Ptr(f.hdr.offStrings + stroffset);
      len := StrLen(f.mem, s.at, name);
      return;
    }
    var totalsize := RoProbe(f);
    if totalsize < 0 { return Null, totalsize; }
    var absoffset := (stroffset + f.hdr.offStrings) % TWO32;
    assert absoffset == f.hdr.offStrings + stroffset;
    if absoffset >= totalsize { return Null, -FDT_ERR_BADOFFSET; }
    var n := totalsize - absoffset;
    if !f.ChkVersion() || f.hdr.version >= 17 {
      if stroffset >= f.hdr.sizeStrings { return Null, -FDT_ERR_BADOFFSET; }
      if f.hdr.sizeStrings - stroffset < n { n := f.hdr.sizeStrings - stroffset; }
    }
    var k := MemChr(f.mem, absoffset, n);
    FirstNul(f.mem[..], absoffset, name, n, k);
    if k < 0 { return Null, -FDT_ERR_TRUNCATED; }
    return Ptr.Ptr(absoffset), k;
  }

  lemma NameInStrings(h: Header, m: bytes, off: nat)
    requires Laid(h, m) && Terminated(StringsOf(h, m), off)
    ensures Occurs(m, h.offStrings + off, StrAt(StringsOf(h, m), off) + [0])
    ensures off + |StrAt(StringsOf(h, m), off)| < h.sizeStrings
  {
    var t, s := StringsOf(h, m), StrAt(StringsOf(h, m), off);
    StrAtHolds(t, off);
    OccursCat(t, off, s, [0]);
    assert Occurs(t, off + |s|, [0]);
    OccursIn(m, h.offStrings, t, off, s + [0]);
  }

  lemma FirstNul(m: bytes, at: nat, name: bytes, n: nat, k: int)
    requires NoNul(name) && Occurs(m, at, name + [0]) && |name| < n && at + n <= |m|
    requires if k < 0 then forall i :: at <= i < at + n ==> m[i] != 0
             else k < n && m[at + k] == 0 && forall i :: at <= i < at + k ==> m[i] != 0
    ensures k == |name|
  {
    NameByte(m, at, name, |name|);
    assert m[at + |name|] == 0;
    if 0 <= k <= |name| {
      NameByte(m, at, name, k);
    }
  }

  method StringEq(f: Fdt, stroffset: nat, s: bytes) returns (r: bool)
    requires Laid(f.hdr, f.mem[..]) && Probed(f) && Terminated(f.Strings(), stroffset) && NoNul(s)
    ensures r <==> StrAt(f.Strings(), stroffset) == s
  {
    var p, slen := GetString(f, stroffset);
    if p.Null? || slen != |s| { return false; }
    var diff := MemCmp(f.mem, p.at, s, StrAt(f.Strings(), stroffset));
    ghost var name := StrAt(f.Strings(), stroffset);
    assert name[..|s|] == name;
    return diff == 0;
  }

  // ------------------------------------------------------------------ fdt_get_property

  /** The first property called name; |its| if there is none. */
  function FindP(t: bytes, its: seq<Item>, name: bytes): (k: nat)
    ensures k <= |its|
    ensures k < |its| ==> its[k].Prop? && StrAt(t, its[k].nameoff) == name
    ensures forall i :: 0 <= i < k && its[i].Prop? ==> StrAt(t, its[i].nameoff) != name
  {
    if its == [] then 0
    else if its[0].Prop? && StrAt(t, its[0].nameoff) == name then 0
    else 1 + FindP(t, its[1..], name)
  }

  lemma FindPIs(t: bytes, its: seq<Item>, name: bytes, k: nat)
    requires k <= |its|
    requires k < |its| ==> its[k].Prop? && StrAt(t, its[k].nameoff) == name
    requires forall i :: 0 <= i < k && its[i].Prop? ==> StrAt(t, its[i].nameoff) != name
    ensures k == FindP(t, its, name)
  {
  }

  /** Facts of a valid blob the scans of one node's properties use. */
  lemma NodeFacts(f: Fdt, p: seq<nat>)
    requires f.Valid() && IsPath(f.root, p)
    ensures Scannable(f, Block(f.root)) && Probed(f) && Closed(Block(f.root)) && Laid(f.hdr, f.mem[..])
    ensures OkItem(f.Strings(), At(f.root, p)) && PropsFirst(At(f.root, p).items)
    ensures NodePos(f.root, p) < |Block(f.root)| && Block(f.root)[NodePos(f.root, p)].TBegin?
  {
    ValidScannable(f);
    NodeTokens(f.root, p);
    OkPut(f.Strings(), f.root, p, f.root);
  }

  lemma PropFacts(h: Header, m: bytes, root: Item, l: seq<Rsv>, p: seq<nat>, k: nat)
    requires Wf(h, m, root, l) && IsPath(root, p) && k < |At(root, p).items| && At(root, p).items[k].Prop?
    ensures var it := At(root, p).items[k]; it.nameoff < TWO32 && Terminated(StringsOf(h, m), it.nameoff) && OkTok(TProp(it.nameoff, it.value, it.ppad))
  {
    OkPut(StringsOf(h, m), root, p, root);
    assert OkItem(StringsOf(h, m), At(root, p).items[k]);
  }

  lemma PropAt(f: Fdt, p: seq<nat>, k: nat)
    requires f.Valid() && IsPath(f.root, p) && k < |At(f.root, p).items| && At(f.root, p).items[k].Prop?
    ensures var it, a := At(f.root, p).items[k], ItemOff(f.root, p, k);
      && ItemPos(f.root, p, k) < |Block(f.root)|
      && Block(f.root)[ItemPos(f.root, p, k)] == TProp(it.nameoff, it.value, it.ppad)
      && ItemPos(f.root, p, k + 1) == ItemPos(f.root, p, k) + 1
      && Off(Block(f.root), ItemPos(f.root, p, k)) == a
      && a % 4 == 0 && a + 12 <= f.hdr.sizeStruct
      && Load(f.mem, f.hdr.offStruct + a + 4) == |it.value|
      && Load(f.mem, f.hdr.offStruct + a + 8) == it.nameoff
      && Terminated(f.Strings(), it.nameoff)
  {
    hide Flat, FlatS, Occurs, Pre, Post, Block, At, ItemPos, ItemOff, NodeOff, Off, Enc, Load, Wf, StringsOf, OkItem, Terminated, Scannable;
    var it := At(f.root, p).items[k];
    NodeFacts(f, p);
    PropFacts(f.hdr, f.mem[..], f.root, f.rsv, p, k);
    ItemTokens(f.root, p, k);
    LeafTok(Block(f.root), ItemPos(f.root, p, k), it);
    TokenAt(f, Block(f.root), ItemPos(f.root, p, k));
    TokenBytes(f, Block(f.root), ItemPos(f.root, p, k));
  }

  /** fdt_check_prop_offset_ followed by nextprop_. */
  method NextPropertyOffset(f: Fdt, start: nat, ghost p: seq<nat>, ghost k: nat) returns (r: int)
    requires f.Valid() && IsPath(f.root, p) && k < |At(f.root, p).items| && At(f.root, p).items[k].Prop?
    requires start == ItemOff(f.root, p, k)
    ensures var m := NextPropIdx(At(f.root, p).items, k + 1);
      r == if m < |At(f.root, p).items| then ItemOff(f.root, p, m) else -FDT_ERR_NOTFOUND
  {
    hide Flat, FlatS, Occurs, Pre, Post, Block, At, ItemPos, ItemOff, NodeOff, Enc, Off;
    NodeFacts(f, p);
    PropAt(f, p, k);
    PropFromItems(f.root, p, k + 1);
    NodeTokens(f.root, p);
    RestTokens(f.root, p, k + 1);
    if start % 4 != 0 { return -FDT_ERR_BADOFFSET; }
    var tag, next := NextTag(f, start, Block(f.root), ItemPos(f.root, p, k));
    if tag != FDT_PROP { return -FDT_ERR_BADOFFSET; }
    if next < 0 { return next; }
    r := NextProp(f, next, Block(f.root), ItemPos(f.root, p, k + 1));
  }

  method FirstPropertyOffset(f: Fdt, nodeoffset: nat, ghost p: seq<nat>) returns (r: int)
    requires f.Valid() && IsPath(f.root, p) && nodeoffset == NodeOff(f.root, p)
    ensures var m := NextPropIdx(At(f.root, p).items, 0);
      r == if m < |At(f.root, p).items| then ItemOff(f.root, p, m) else -FDT_ERR_NOTFOUND
  {
    hide Flat, FlatS, Occurs, Pre, Post, Block, At, Enc, Off, NodeOff, ItemOff;
    NodeFacts(f, p);
    PropFromItems(f.root, p, 0);
    NodeTokens(f.root, p);
    RestTokens(f.root, p, 0);
    assert At(f.root, p).items[..0] == [];
    FlatSNil();
    assert ItemPos(f.root, p, 0) == NodePos(f.root, p) + 1;
    var offset := CheckNodeOffset(f, nodeoffset, Block(f.root), NodePos(f.root, p));
    if offset < 0 { return offset; }
    r := NextProp(f, offset, Block(f.root), ItemPos(f.root, p, 0));
  }

  lemma FlatSNil()
    ensures FlatS([]) == []
  {
  }

  /** fdt_get_property_namelen_: the offset of the property and its length, or an error twice. */
  method GetProperty(f: Fdt, nodeoffset: nat, name: bytes, ghost p: seq<nat>) returns (offset: int, len: int)
    requires f.Valid() && IsPath(f.root, p) && nodeoffset == NodeOff(f.root, p) && NoNul(name)
    ensures var its := At(f.root, p).items; var k := FindP(f.Strings(), its, name);
      if k < |its| then offset == ItemOff(f.root, p, k) && len == |its[k].value|
      else offset == len == -FDT_ERR_NOTFOUND
  {
    hide Flat, FlatS, Occurs, Pre, Post, Block, At, ItemPos, ItemOff, NodeOff, Enc, Off, Load, StrAt, Wf, Laid, Scannable, StringsOf, Terminated, NextPropIdx;
    ghost var its, t := At(f.root, p).items, f.Strings();
    NodeFacts(f, p);
    offset := FirstPropertyOffset(f, nodeoffset, p);
    ghost var k := NextPropIdx(its, 0);
    while offset >= 0
      invariant k <= |its| && (k < |its| ==> its[k].Prop?)
      invariant offset == if k < |its| then ItemOff(f.root, p, k) else -FDT_ERR_NOTFOUND
      invariant forall i :: 0 <= i < k && its[i].Prop? ==> StrAt(t, its[i].nameoff) != name
      decreases |its| - k
    {
      PropAt(f, p, k);
      len := Load(f.mem, f.hdr.offStruct + offset + 4);
      var nameoff := Load(f.mem, f.hdr.offStruct + offset + 8);
      var eq := StringEq(f, nameoff, name);
      if eq {
        FindPIs(t, its, name, k);
        return;
      }
      offset := NextPropertyOffset(f, offset, p, k);
      k := NextPropIdx(its, k + 1);
    }
    FindPIs(t, its, name, |its|);
    len := offset;
  }
}
