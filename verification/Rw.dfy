/**
  fdt_rw.c and fdt_wip.c: writing properties.  p is the path of the node at nodeoffset.
 */
module Rw {
  import opened Bytes
  import opened Tokens
  import opened Tree
  import opened Meaning
  import opened Blob
  import opened Scan
  import opened Walk
  import opened TreeWalk
  import opened Props
  import opened Edit
  import opened Splicing
  import opened Effects

  /** The longest property value whose padded record still has an int length. */
  const MAX_VALUE: nat := 0x7fff_fff0

  // ------------------------------------------------------------------ the record of a property

  function PropRecord(o: nat, v: bytes, pad: bytes): bytes {
    Enc(FlatS([Item.Prop(o, v, pad)]))
  }

  lemma PropRecordIs(o: nat, v: bytes, pad: bytes)
    ensures PropRecord(o, v, pad) == BE32(FDT_PROP) + (BE32(|v|) + BE32(o) + v + pad)
    ensures |PropRecord(o, v, pad)| == 12 + |v| + |pad|
  {
    hide BE32;
    FlatSOne(Item.Prop(o, v, pad));
    EncOne(TProp(o, v, pad));
  }

  /** Three words and n4 bytes after them are the record of a property of length len. */
  lemma HoleProp(m: bytes, at: nat, o: nat, len: nat, n4: nat)
    requires n4 == TagAlign(len) && len < MAX_VALUE && o < TWO32 && at + 12 + n4 <= |m|
    requires Occurs(m, at, BE32(FDT_PROP)) && Occurs(m, at + 4, BE32(len)) && Occurs(m, at + 8, BE32(o))
    ensures var v, pad := m[at + 12..at + 12 + len], m[at + 12 + len..at + 12 + n4];
      Occurs(m, at, PropRecord(o, v, pad)) && |PropRecord(o, v, pad)| == 12 + n4 && OkTok(TProp(o, v, pad))
  {
    hide BE32, PropRecord;
    var v, pad := m[at + 12..at + 12 + len], m[at + 12 + len..at + 12 + n4];
    PropRecordIs(o, v, pad);
    OccursCat(m, at, BE32(FDT_PROP), BE32(len) + BE32(o) + v + pad);
    OccursCat(m, at + 4, BE32(len) + BE32(o) + v, pad);
    OccursCat(m, at + 4, BE32(len) + BE32(o), v);
    OccursCat(m, at + 4, BE32(len), BE32(o));
  }

  /** The words of a property already in place. */
  lemma RecordWords(m: bytes, at: nat, o: nat, v: bytes, pad: bytes)
    requires Occurs(m, at, PropRecord(o, v, pad))
    ensures Occurs(m, at, BE32(FDT_PROP)) && Occurs(m, at + 4, BE32(|v|)) && Occurs(m, at + 8, BE32(o))
    ensures Occurs(m, at + 12, v) && Occurs(m, at + 12 + |v|, pad)
  {
    hide BE32, PropRecord;
    PropRecordIs(o, v, pad);
    OccursCat(m, at, BE32(FDT_PROP), BE32(|v|) + BE32(o) + v + pad);
    OccursCat(m, at + 4, BE32(|v|) + BE32(o) + v, pad);
    OccursCat(m, at + 4, BE32(|v|) + BE32(o), v);
    OccursCat(m, at + 4, BE32(|v|), BE32(o));
  }

  // ------------------------------------------------------------------ fdt_add_property_

  /** The item whose record fills n4 + 12 bytes at index at. */
  function ItemAt(m: bytes, at: nat, o: nat, len: nat): (it: Item)
    requires at + 12 + TagAlign(len) <= |m|
    ensures it.Prop?
  {
    Item.Prop(o, m[at + 12..at + 12 + len], m[at + 12 + len..at + 12 + TagAlign(len)])
  }

  /** A hole holding the words of a property closes to a tree with that property. */
  lemma PropClose(h: Header, m: bytes, g: Header, w: bytes, root: Item, l: seq<Rsv>, p: seq<nat>, k: nat, e: nat, o: nat, len: nat)
    requires Opened(h, m, g, w, root, l, [], p, k, e, 12 + TagAlign(len))
    requires len < MAX_VALUE && o < TWO32 && Terminated(StringsOf(g, w), o)
    requires k == e == 0 || (e == k + 1 && At(root, p).items[k].Prop?)
    requires var at := HoleAt(g, root, p, k); Occurs(m, at, BE32(FDT_PROP)) && Occurs(m, at + 4, BE32(len)) && Occurs(m, at + 8, BE32(o))
    ensures HoleAt(g, root, p, k) + 12 + TagAlign(len) <= |m|
    ensures var it := ItemAt(m, HoleAt(g, root, p, k), o, len);
      Replaced(h, m, root, l, p, k, e, [it], Put(root, p, Replace(At(root, p), k, e, [it])))
  {
    hide BE32, Enc, FlatS, Pre, Post, Put, At, Wf, ItemPre, Tail, StringsOf, TagAlign, RsvBlock, OkRsv, PropsFirst, Terminated, Replaced, Block, Flat;
    var at := HoleAt(g, root, p, k);
    HoleProp(m, at, o, len, TagAlign(len));
    var it := ItemAt(m, at, o, len);
    PropsFirstSwap(At(root, p), k, e, it) by {
      WfLaid(g, w, root, l);
      OkPut(StringsOf(g, w), root, p, root);
    }
    assert StringsOf(g, w) + [] == StringsOf(g, w) by { WfLaid(g, w, root, l); }
    TornClose(h, m, g, w, root, l, [], p, k, e, [it]);
  }

  lemma PropsFirstSwap(n: Item, k: nat, e: nat, it: Item)
    requires n.Node? && PropsFirst(n.items) && it.Prop? && k <= e <= |n.items|
    requires k == e == 0 || (e == k + 1 && n.items[k].Prop?)
    ensures PropsFirst(Replace(n, k, e, [it]).items)
  {
    var r := Replace(n, k, e, [it]).items;
    if k == e {
      assert forall i :: 1 <= i < |r| ==> r[i] == n.items[i - 1];
    } else {
      assert forall i :: 0 <= i < |r| && i != k ==> r[i] == n.items[i];
    }
  }

  /** Storing tag, name offset and length in a hole. */
  lemma StoreWords(h: Header, m: bytes, g: Header, w: bytes, root: Item, l: seq<Rsv>, p: seq<nat>, k: nat, e: nat, o: nat, len: nat)
    requires Opened(h, m, g, w, root, l, [], p, k, e, 12 + TagAlign(len))
    ensures HoleAt(g, root, p, k) + 12 + TagAlign(len) <= |m|
    ensures var at := HoleAt(g, root, p, k);
      var m' := Written(Written(Written(m, at, BE32(FDT_PROP)), at + 8, BE32(o)), at + 4, BE32(len));
      && Opened(h, m', g, w, root, l, [], p, k, e, 12 + TagAlign(len))
      && Occurs(m', at, BE32(FDT_PROP)) && Occurs(m', at + 4, BE32(len)) && Occurs(m', at + 8, BE32(o))
  {
    hide BE32, Opened, Written, TagAlign, Occurs, ItemOff, ItemPre, Wf, StringsOf, At, IsPath;
    OpenedIs(h, m, g, w, root, l, [], p, k, e, 12 + TagAlign(len));
    var at, n := HoleAt(g, root, p, k), 12 + TagAlign(len);
    OpenedWrite(h, m, g, w, root, l, [], p, k, e, n, at, BE32(FDT_PROP));
    var m1 := Written(m, at, BE32(FDT_PROP));
    OpenedWrite(h, m1, g, w, root, l, [], p, k, e, n, at + 8, BE32(o));
    var m2 := Written(m1, at + 8, BE32(o));
    OpenedWrite(h, m2, g, w, root, l, [], p, k, e, n, at + 4, BE32(len));
    WrittenHolds(m, at, BE32(FDT_PROP));
    WrittenKeeps(m1, at + 8, BE32(o), at, BE32(FDT_PROP));
    WrittenHolds(m1, at + 8, BE32(o));
    WrittenKeeps(m2, at + 4, BE32(len), at, BE32(FDT_PROP));
    WrittenKeeps(m2, at + 4, BE32(len), at + 8, BE32(o));
    WrittenHolds(m2, at + 4, BE32(len));
  }

  /** Taking back the last string: the tree never referred to it. */
  lemma Rollback(h: Header, m: bytes, root: Item, l: seq<Rsv>, h': Header, m': bytes, x: bytes)
    requires Wf(h, m, root, l) && Wf(h', m', root, l) && h' == h.(sizeStrings := h.sizeStrings + |x|)
    requires StringsOf(h', m') == StringsOf(h, m) + x
    ensures Wf(h, m', root, l) && StringsOf(h, m') == StringsOf(h, m)
  {
    hide Enc, Block, RsvBlock, OkItem;
    assert StringsOf(h, m') == StringsOf(h', m')[..h.sizeStrings];
  }

  /** The tree and the reservations are as they were; the strings too, or with unused ones added. */
  ghost predicate Unchanged(root: Item, l: seq<Rsv>, t: bytes, f: Fdt)
    reads f, f.mem
  {
    f.Valid() && f.root == root && f.rsv == l && |t| <= |f.Strings()| && f.Strings()[..|t|] == t &&
    (f.ChkBasic() ==> f.Strings() == t)
  }

  /** Header and bytes before and after fdt_splice_struct_. */
  ghost predicate SplicedOnly(h: Header, m: bytes, h': Header, m': bytes, at: nat, oldlen: nat, newlen: nat) {
    && oldlen <= h.sizeStruct && oldlen <= h.offStrings && h' == StructGrown(h, oldlen, newlen)
    && at + oldlen <= DataSize(h) <= |m| && DataSize(h) - oldlen + newlen <= |m|
    && m' == Moved(m, at + newlen, at + oldlen, DataSize(h) - at - oldlen)
  }

  /** fdt_splice_struct_ where items k..e of the node at p are stored. */
  method SpliceItems(f: Fdt, at: nat, oldlen: nat, newlen: nat, ghost p: seq<nat>, ghost k: nat, ghost e: nat) returns (err: int)
    requires f.Valid() && IsPath(f.root, p) && k <= e <= |At(f.root, p).items|
    requires at == HoleAt(f.hdr, f.root, p, k) && oldlen == |Enc(FlatS(At(f.root, p).items[k..e]))|
    modifies f`hdr, f.mem
    ensures err == if old(DataSize(f.hdr) - oldlen + newlen > f.hdr.totalsize) then -FDT_ERR_NOSPACE else 0
    ensures err != 0 ==> f.hdr == old(f.hdr) && f.mem[..] == old(f.mem[..])
    ensures err == 0 ==> Opened(f.hdr, f.mem[..], old(f.hdr), old(f.mem[..]), f.root, f.rsv, [], p, k, e, newlen)
    ensures err == 0 ==> SplicedOnly(old(f.hdr), old(f.mem[..]), f.hdr, f.mem[..], at, oldlen, newlen)
  {
    hide Wf, Enc, ItemPre, Tail, RsvBlock, FlatS, Moved, At, StringsOf, Occurs, Torn;
    ghost var h, m := f.hdr, f.mem[..];
    WfLaid(h, m, f.root, f.rsv);
    SplitOccurs(h, m, f.root, f.rsv, p, k, e);
    assert StringsOf(h, m) + [] == StringsOf(h, m);
    err := SpliceStruct(f, at, oldlen, newlen, f.rsv, Enc(ItemPre(f.root, p, k)), Enc(FlatS(At(f.root, p).items[e..]) + Tail(f.root, p)));
  }

  /** Filling a hole with the record of a property: its value is what the buffer holds. */
  method FillProp(f: Fdt, prop: nat, nameoff: nat, len: nat, ghost g: Header, ghost w: bytes, ghost p: seq<nat>, ghost k: nat, ghost e: nat)
    returns (ghost it: Item)
    requires Opened(f.hdr, f.mem[..], g, w, f.root, f.rsv, [], p, k, e, 12 + TagAlign(len))
    requires len < MAX_VALUE && nameoff < TWO32 && Terminated(StringsOf(g, w), nameoff)
    requires k == e == 0 || (e == k + 1 && At(f.root, p).items[k].Prop?)
    requires prop == HoleAt(g, f.root, p, k)
    modifies f`root, f.mem
    ensures Replaced(f.hdr, f.mem[..], old(f.root), f.rsv, p, k, e, [it], f.root)
    ensures f.Strings() == StringsOf(g, w) && prop == HoleAt(f.hdr, f.root, p, k)
    ensures it.Prop? && |it.value| == len && it.nameoff == nameoff
  {
    hide BE32, Opened, Written, TagAlign, Enc, ItemPre, Tail, RsvBlock, StringsOf, OkItem, Terminated, Wf, FlatS, Put, At;
    ghost var h, root := f.hdr, f.root;
    OpenedIs(h, f.mem[..], g, w, root, f.rsv, [], p, k, e, 12 + TagAlign(len));
    StoreWords(h, f.mem[..], g, w, root, f.rsv, p, k, e, nameoff, len);
    StoreWord(f.mem, prop, FDT_PROP);
    StoreWord(f.mem, prop + 8, nameoff);
    StoreWord(f.mem, prop + 4, len);
    PropClose(h, f.mem[..], g, w, root, f.rsv, p, k, e, nameoff, len);
    OpenedIs(h, f.mem[..], g, w, root, f.rsv, [], p, k, e, 12 + TagAlign(len));
    assert StringsOf(g, w) + [] == StringsOf(g, w);
    it := ItemAt(f.mem[..], prop, nameoff, len);
    f.root := Put(root, p, Replace(At(root, p), k, e, [it]));
  }

  lemma FirstItem(root: Item, p: seq<nat>)
    requires IsPath(root, p)
    ensures NodePos(root, p) + 1 < |Block(root)| && Off(Block(root), NodePos(root, p) + 1) == ItemOff(root, p, 0)
    ensures NodeOff(root, p) == Off(Block(root), NodePos(root, p)) && Block(root)[NodePos(root, p)].TBegin?
    ensures |Enc(FlatS(At(root, p).items[0..0]))| == 0
  {
    hide Block, Enc, Pre;
    NodeTokens(root, p);
    RestTokens(root, p, 0);
    assert At(root, p).items[..0] == [] == At(root, p).items[0..0];
    EncNil();
  }

  lemma EncNil()
    ensures Enc([]) == []
  {
  }

  /** fdt_add_property_; it is the new item, its value whatever the buffer held. */
  method AddProperty(f: Fdt, nodeoffset: nat, name: bytes, len: nat, ghost p: seq<nat>) returns (err: int, prop: nat, ghost it: Item)
    requires f.Valid() && IsPath(f.root, p) && nodeoffset == NodeOff(f.root, p) && NoNul(name) && len < MAX_VALUE
    modifies f, f.mem
    ensures err == if old(DataSize(f.hdr) + StringCost(f.Strings(), name) + 12 + TagAlign(len) > f.hdr.totalsize) then -FDT_ERR_NOSPACE else 0
    ensures err != 0 ==> Unchanged(old(f.root), old(f.rsv), old(f.Strings()), f)
    ensures err == 0 ==> f.rsv == old(f.rsv) && Replaced(f.hdr, f.mem[..], old(f.root), f.rsv, p, 0, 0, [it], f.root)
    ensures err == 0 ==> f.Strings() == WithString(old(f.Strings()), name)
    ensures err == 0 ==> GrewBy(old(f.hdr), f.hdr, old(StringCost(f.Strings(), name)) + 12 + TagAlign(len))
    ensures err == 0 ==> prop == HoleAt(f.hdr, f.root, p, 0) && it.Prop? && |it.value| == len && StrAt(f.Strings(), it.nameoff) == name
  {
    hide BE32, Opened, Written, TagAlign, Enc, ItemPre, Tail, Moved, RsvBlock, StringsOf, OkItem, Terminated, StrAt, Replaced, Wf, FlatS, Put, At;
    ghost var h0, m0, root := f.hdr, f.mem[..], f.root;
    prop := 0;
    it := Item.Nop;
    WfLaid(h0, m0, root, f.rsv);
    ValidScannable(f);
    FirstItem(root, p);
    var nextoffset := CheckNodeOffset(f, nodeoffset, Block(root), NodePos(root, p));
    if nextoffset < 0 { return nextoffset, prop, it; }
    var namestroff, added := FindAddString(f, name);
    if namestroff < 0 { return namestroff, prop, it; }
    ghost var h1, m1 := f.hdr, f.mem[..];
    prop := f.hdr.offStruct + nextoffset;
    var proplen := 12 + TagAlign(len);
    err := SpliceItems(f, prop, 0, proplen, p, 0, 0);
    if err != 0 {
      if f.ChkBasic() && added {
        f.hdr := f.hdr.(sizeStrings := f.hdr.sizeStrings - (|name| + 1));
        Rollback(h0, m0, root, f.rsv, h1, m1, name + [0]);
      }
      return err, prop, it;
    }
    it := FillProp(f, prop, namestroff, len, h1, m1, p, 0, 0);
  }

  // ------------------------------------------------------------------ fdt_resize_property_

  /** Tag, length and name offset of a property. */
  function Words(it: Item): (r: bytes)
    requires it.Prop?
    ensures |r| == 12
  {
    BE32(FDT_PROP) + (BE32(|it.value|) + BE32(it.nameoff))
  }

  lemma WordsOccur(m: bytes, at: nat, it: Item)
    requires it.Prop? && Occurs(m, at, Words(it))
    ensures Occurs(m, at, BE32(FDT_PROP)) && Occurs(m, at + 4, BE32(|it.value|)) && Occurs(m, at + 8, BE32(it.nameoff))
  {
    hide BE32;
    OccursCat(m, at, BE32(FDT_PROP), BE32(|it.value|) + BE32(it.nameoff));
    OccursCat(m, at + 4, BE32(|it.value|), BE32(it.nameoff));
  }

  /** The bytes of property k of the node at p, and those around it. */
  lemma PropBytes(h: Header, m: bytes, root: Item, l: seq<Rsv>, p: seq<nat>, k: nat)
    requires Wf(h, m, root, l) && IsPath(root, p) && k < |At(root, p).items| && At(root, p).items[k].Prop?
    ensures var it, at := At(root, p).items[k], HoleAt(h, root, p, k);
      var a, c := Enc(ItemPre(root, p, k)), Enc(FlatS(At(root, p).items[k + 1..]) + Tail(root, p));
      && Occurs(m, h.offStruct, a + Words(it)) && Occurs(m, at, Words(it)) && Occurs(m, at + 12, it.value)
      && Occurs(m, at + 12 + TagAlign(|it.value|), c) && h.sizeStruct == |a| + 12 + TagAlign(|it.value|) + |c|
      && |Enc(FlatS(At(root, p).items[k..k + 1]))| == 12 + TagAlign(|it.value|)
  {
    hide BE32, Enc, FlatS, Pre, Post, Put, At, Block, ItemPre, Tail, StringsOf, TagAlign, RsvBlock, PropRecord;
    var its, at := At(root, p).items, HoleAt(h, root, p, k);
    var it := its[k];
    PropFacts(h, m, root, l, p, k);
    SplitOccurs(h, m, root, l, p, k, k + 1);
    assert its[k..k + 1] == [it];
    assert Enc(FlatS([it])) == PropRecord(it.nameoff, it.value, it.ppad) by { FlatSOne(it); RecordIsEnc(it); }
    PropRecordIs(it.nameoff, it.value, it.ppad);
    PadIs(|it.value|, |it.ppad|);
    RecordWords(m, at, it.nameoff, it.value, it.ppad);
    OccursCat(m, at, BE32(FDT_PROP), BE32(|it.value|) + BE32(it.nameoff));
    OccursCat(m, at + 4, BE32(|it.value|), BE32(it.nameoff));
    OccursCat(m, h.offStruct, Enc(ItemPre(root, p, k)), Words(it));
  }

  lemma RecordIsEnc(it: Item)
    requires it.Prop?
    ensures PropRecord(it.nameoff, it.value, it.ppad) == Enc(FlatS([it]))
  {
    hide FlatS, Enc;
  }

  lemma PadIs(n: nat, pad: nat)
    requires pad < 4 && (n + pad) % 4 == 0
    ensures n + pad == TagAlign(n)
  {
  }

  /** A hole after b is a hole that still holds b. */
  lemma TornShift(h: Header, m: bytes, g: Header, t: bytes, l: seq<Rsv>, a: bytes, b: bytes, n: nat, c: bytes)
    requires Torn(h, m, g, t, l, a + b, n, c)
    ensures h.offStruct == g.offStruct && Torn(h, m, g, t, l, a, |b| + n, c) && Occurs(m, g.offStruct + |a|, b)
  {
    hide Occurs, StringsOf, RsvBlock;
    OccursCat(m, h.offStruct, a, b);
  }

  function Min(a: nat, b: nat): nat {
    if a < b then a else b
  }

  /** After the splice of a property's data: the record is open, its words and the start of its value in place. */
  ghost predicate Resizing(h: Header, m: bytes, g: Header, w: bytes, root: Item, l: seq<Rsv>, p: seq<nat>, k: nat, len: nat, keep: bytes) {
    && Opened(h, m, g, w, root, l, [], p, k, k + 1, 12 + TagAlign(len)) && At(root, p).items[k].Prop?
    && var at := HoleAt(g, root, p, k);
      Occurs(m, at, BE32(FDT_PROP)) && Occurs(m, at + 8, BE32(At(root, p).items[k].nameoff)) && Occurs(m, at + 12, keep) && |keep| <= len
  }

  /** The start of a value survives the move of what follows it. */
  lemma KeepValue(m: bytes, at: nat, v: bytes, len: nat, n: nat)
    requires Occurs(m, at, v) && at + TagAlign(|v|) + n <= |m| && at + TagAlign(len) + n <= |m|
    ensures Occurs(Moved(m, at + TagAlign(len), at + TagAlign(|v|), n), at, v[..Min(len, |v|)])
  {
    hide Moved;
    var keep := v[..Min(len, |v|)];
    assert v == keep + v[Min(len, |v|)..];
    OccursCat(m, at, keep, v[Min(len, |v|)..]);
    MovedBefore(m, at + TagAlign(len), at + TagAlign(|v|), n, at, keep);
  }

  lemma ValueSpliced(h: Header, m: bytes, g: Header, w: bytes, root: Item, l: seq<Rsv>, p: seq<nat>, k: nat, len: nat)
    requires Wf(g, w, root, l) && IsPath(root, p) && k < |At(root, p).items| && At(root, p).items[k].Prop?
    requires var it, at := At(root, p).items[k], HoleAt(g, root, p, k) + 12;
      && Torn(h, m, g, StringsOf(g, w), l, Enc(ItemPre(root, p, k)) + Words(it), TagAlign(len), Enc(FlatS(At(root, p).items[k + 1..]) + Tail(root, p)))
      && at + TagAlign(|it.value|) <= DataSize(g) <= |w| && DataSize(g) - TagAlign(|it.value|) + TagAlign(len) <= |w|
      && m == Moved(w, at + TagAlign(len), at + TagAlign(|it.value|), DataSize(g) - at - TagAlign(|it.value|))
    ensures Resizing(h, m, g, w, root, l, p, k, len, At(root, p).items[k].value[..Min(len, |At(root, p).items[k].value|)])
  {
    hide BE32, TagAlign, Enc, ItemPre, Tail, RsvBlock, StringsOf, Wf, FlatS, Put, At, Words, Torn, Moved;
    var it, at := At(root, p).items[k], HoleAt(g, root, p, k) + 12;
    PropBytes(g, w, root, l, p, k);
    TornShift(h, m, g, StringsOf(g, w), l, Enc(ItemPre(root, p, k)), Words(it), TagAlign(len), Enc(FlatS(At(root, p).items[k + 1..]) + Tail(root, p)));
    WordsOccur(m, at - 12, it);
    KeepValue(w, at, it.value, len, DataSize(g) - at - TagAlign(|it.value|));
    assert StringsOf(g, w) + [] == StringsOf(g, w);
  }

  /** fdt_splice_struct_ on the value of property k of the node at p. */
  method SpliceValue(f: Fdt, prop: nat, oldlen: nat, len: nat, ghost p: seq<nat>, ghost k: nat) returns (err: int)
    requires f.Valid() && IsPath(f.root, p) && k < |At(f.root, p).items| && At(f.root, p).items[k].Prop?
    requires prop == HoleAt(f.hdr, f.root, p, k) && oldlen == |At(f.root, p).items[k].value|
    modifies f`hdr, f.mem
    ensures err == if old(DataSize(f.hdr)) - TagAlign(oldlen) + TagAlign(len) > old(f.hdr.totalsize) then -FDT_ERR_NOSPACE else 0
    ensures err != 0 ==> f.hdr == old(f.hdr) && f.mem[..] == old(f.mem[..])
    ensures err == 0 ==> Resizing(f.hdr, f.mem[..], old(f.hdr), old(f.mem[..]), f.root, f.rsv, p, k, len,
                                  At(f.root, p).items[k].value[..Min(len, oldlen)])
    ensures err == 0 ==> f.hdr == old(f.hdr).(sizeStruct := f.hdr.sizeStruct, offStrings := f.hdr.offStrings)
    ensures err == 0 ==> GrewBy(old(f.hdr), f.hdr, TagAlign(len) - TagAlign(oldlen))
  {
    hide BE32, TagAlign, Enc, ItemPre, Tail, RsvBlock, StringsOf, Wf, FlatS, Put, At, Words, Torn, Moved, Resizing, Occurs;
    ghost var g, w, root, l := f.hdr, f.mem[..], f.root, f.rsv;
    ghost var it := At(root, p).items[k];
    WfLaid(g, w, root, l);
    PropBytes(g, w, root, l, p, k);
    ghost var a, c := Enc(ItemPre(root, p, k)), Enc(FlatS(At(root, p).items[k + 1..]) + Tail(root, p));
    err := SpliceStruct(f, prop + 12, TagAlign(oldlen), TagAlign(len), l, a + Words(it), c);
    if err != 0 { return; }
    ValueSpliced(f.hdr, f.mem[..], g, w, root, l, p, k, len);
  }

  /** Writing the new length closes the record. */
  method FillLength(f: Fdt, prop: nat, len: nat, ghost g: Header, ghost w: bytes, ghost p: seq<nat>, ghost k: nat, ghost keep: bytes)
    returns (ghost it: Item)
    requires Resizing(f.hdr, f.mem[..], g, w, f.root, f.rsv, p, k, len, keep) && len < MAX_VALUE
    requires At(f.root, p).items[k].nameoff < TWO32 && Terminated(StringsOf(g, w), At(f.root, p).items[k].nameoff)
    requires prop == HoleAt(g, f.root, p, k)
    modifies f`root, f.mem
    ensures Replaced(f.hdr, f.mem[..], old(f.root), f.rsv, p, k, k + 1, [it], f.root)
    ensures f.Strings() == StringsOf(g, w) && prop == HoleAt(f.hdr, f.root, p, k)
    ensures it.Prop? && |it.value| == len && it.nameoff == old(At(f.root, p).items[k].nameoff) && it.value[..|keep|] == keep
  {
    hide BE32, Opened, Written, TagAlign, Enc, ItemPre, Tail, RsvBlock, StringsOf, OkItem, Terminated, Wf, FlatS, Put, At;
    ghost var h, m, root := f.hdr, f.mem[..], f.root;
    OpenedIs(h, m, g, w, root, f.rsv, [], p, k, k + 1, 12 + TagAlign(len));
    ghost var o := At(root, p).items[k].nameoff;
    OpenedWrite(h, m, g, w, root, f.rsv, [], p, k, k + 1, 12 + TagAlign(len), prop + 4, BE32(len));
    WrittenKeeps(m, prop + 4, BE32(len), prop, BE32(FDT_PROP));
    WrittenKeeps(m, prop + 4, BE32(len), prop + 8, BE32(o));
    WrittenKeeps(m, prop + 4, BE32(len), prop + 12, keep);
    WrittenHolds(m, prop + 4, BE32(len));
    StoreWord(f.mem, prop + 4, len);
    PropClose(h, f.mem[..], g, w, root, f.rsv, p, k, k + 1, o, len);
    OpenedIs(h, f.mem[..], g, w, root, f.rsv, [], p, k, k + 1, 12 + TagAlign(len));
    assert StringsOf(g, w) + [] == StringsOf(g, w);
    it := ItemAt(f.mem[..], prop, o, len);
    assert it.value[..|keep|] == f.mem[..][prop + 12..prop + 12 + |keep|];
    f.root := Put(root, p, Replace(At(root, p), k, k + 1, [it]));
  }

  /** Splice and new length of property k of the node at p; as much of the old value as fits is kept. */
  method ResizeAt(f: Fdt, prop: nat, oldlen: nat, len: nat, ghost p: seq<nat>, ghost k: nat) returns (err: int, ghost it: Item)
    requires f.Valid() && IsPath(f.root, p) && k < |At(f.root, p).items| && At(f.root, p).items[k].Prop?
    requires prop == HoleAt(f.hdr, f.root, p, k) && oldlen == |At(f.root, p).items[k].value| && len < MAX_VALUE
    modifies f, f.mem
    ensures err == if old(DataSize(f.hdr)) - TagAlign(oldlen) + TagAlign(len) > old(f.hdr.totalsize) then -FDT_ERR_NOSPACE else 0
    ensures f.rsv == old(f.rsv)
    ensures err != 0 ==> f.hdr == old(f.hdr) && f.mem[..] == old(f.mem[..]) && f.root == old(f.root)
    ensures err == 0 ==> Replaced(f.hdr, f.mem[..], old(f.root), f.rsv, p, k, k + 1, [it], f.root)
    ensures err == 0 ==> f.Strings() == old(f.Strings()) && prop == HoleAt(f.hdr, f.root, p, k)
    ensures err == 0 ==> var was := old(At(f.root, p).items[k]);
      it.Prop? && |it.value| == len && it.nameoff == was.nameoff && it.value[..Min(len, oldlen)] == was.value[..Min(len, oldlen)]
    ensures err == 0 ==> GrewBy(old(f.hdr), f.hdr, TagAlign(len) - TagAlign(oldlen))
  {
    hide TagAlign, ItemPre, Tail, StringsOf, OkItem, Terminated, Put, At, FindP, Replaced, Resizing, Enc, FlatS;
    ghost var g, w, root := f.hdr, f.mem[..], f.root;
    ghost var v := At(root, p).items[k].value;
    it := Item.Nop;
    PropFacts(g, w, root, f.rsv, p, k);
    err := SpliceValue(f, prop, oldlen, len, p, k);
    if err != 0 { return err, it; }
    it := FillLength(f, prop, len, g, w, p, k, v[..Min(len, oldlen)]);
  }

  /** fdt_resize_property_ */
  method ResizeProperty(f: Fdt, nodeoffset: nat, name: bytes, len: nat, ghost p: seq<nat>) returns (err: int, prop: nat, ghost it: Item)
    requires f.Valid() && IsPath(f.root, p) && nodeoffset == NodeOff(f.root, p) && NoNul(name) && len < MAX_VALUE
    modifies f, f.mem
    ensures var its := old(At(f.root, p).items); var k := old(FindP(f.Strings(), its, name));
      err == if k == |its| then -FDT_ERR_NOTFOUND
             else if old(DataSize(f.hdr)) - TagAlign(|its[k].value|) + TagAlign(len) > old(f.hdr.totalsize) then -FDT_ERR_NOSPACE else 0
    ensures f.rsv == old(f.rsv)
    ensures err != 0 ==> f.hdr == old(f.hdr) && f.mem[..] == old(f.mem[..]) && f.root == old(f.root)
    ensures err == 0 ==> var k := old(FindP(f.Strings(), At(f.root, p).items, name));
      && Replaced(f.hdr, f.mem[..], old(f.root), f.rsv, p, k, k + 1, [it], f.root)
      && f.Strings() == old(f.Strings()) && prop == HoleAt(f.hdr, f.root, p, k)
      && it.Prop? && |it.value| == len && it.nameoff == old(At(f.root, p).items[k].nameoff)
      && GrewBy(old(f.hdr), f.hdr, TagAlign(len) - TagAlign(|old(At(f.root, p).items)[k].value|))
  {
    hide TagAlign, ItemPre, Tail, StringsOf, Wf, Put, At, FindP, Replaced, IsPath, GrewBy, OkItem;
    prop := 0;
    it := Item.Nop;
    var offset, oldlen := GetProperty(f, nodeoffset, name, p);
    if offset < 0 { return oldlen, prop, it; }
    prop := f.hdr.offStruct + offset;
    err, it := ResizeAt(f, prop, oldlen, len, p, FindP(f.Strings(), At(f.root, p).items, name));
  }

  // ------------------------------------------------------------------ fdt_setprop and friends

  lemma ValueStored(h: Header, m: bytes, root: Item, l: seq<Rsv>, p: seq<nat>, k: nat, idx: nat, val: bytes)
    requires Wf(h, m, root, l) && IsPath(root, p) && k < |At(root, p).items| && At(root, p).items[k].Prop?
    requires idx + |val| <= |At(root, p).items[k].value| < MAX_VALUE
    ensures HoleAt(h, root, p, k) + 12 + TagAlign(|At(root, p).items[k].value|) <= |m|
    ensures var was, at := At(root, p).items[k], HoleAt(h, root, p, k);
      var m' := Written(m, at + 12 + idx, val);
      var it := ItemAt(m', at, was.nameoff, |was.value|);
      && Replaced(h, m', root, l, p, k, k + 1, [it], Put(root, p, Replace(At(root, p), k, k + 1, [it])))
      && StringsOf(h, m') == StringsOf(h, m) && it.value == Written(was.value, idx, val)
  {
    hide BE32, Opened, Written, TagAlign, Enc, ItemPre, Tail, RsvBlock, StringsOf, OkItem, Terminated, Wf, FlatS, Put, At, Words, Replaced;
    var was, at := At(root, p).items[k], HoleAt(h, root, p, k);
    var n := 12 + TagAlign(|was.value|);
    PropBytes(h, m, root, l, p, k);
    PropFacts(h, m, root, l, p, k);
    WfOpened(h, m, root, l, p, k, k + 1);
    OpenedIs(h, m, h, m, root, l, [], p, k, k + 1, n);
    OpenedWrite(h, m, h, m, root, l, [], p, k, k + 1, n, at + 12 + idx, val);
    var m' := Written(m, at + 12 + idx, val);
    WrittenKeeps(m, at + 12 + idx, val, at, Words(was));
    WordsOccur(m', at, was);
    PropClose(h, m', h, m, root, l, p, k, k + 1, was.nameoff, |was.value|);
    OpenedIs(h, m', h, m, root, l, [], p, k, k + 1, n);
    WrittenSlice(m, at + 12, was.value, idx, val);
    assert StringsOf(h, m) + [] == StringsOf(h, m);
  }

  /** Overwriting part of a value in place. */
  method StoreValue(f: Fdt, prop: nat, idx: nat, val: bytes, ghost p: seq<nat>, ghost k: nat) returns (ghost it: Item)
    requires f.Valid() && IsPath(f.root, p) && k < |At(f.root, p).items| && At(f.root, p).items[k].Prop?
    requires prop == HoleAt(f.hdr, f.root, p, k) && idx + |val| <= |At(f.root, p).items[k].value| < MAX_VALUE
    modifies f`root, f.mem
    ensures Replaced(f.hdr, f.mem[..], old(f.root), f.rsv, p, k, k + 1, [it], f.root) && f.Strings() == old(f.Strings())
    ensures var was := old(At(f.root, p).items[k]); it.Prop? && it.nameoff == was.nameoff && it.value == Written(was.value, idx, val)
  {
    hide Written, TagAlign, StringsOf, Wf, Put, At, Replaced, HoleAt;
    ghost var m, root := f.mem[..], f.root;
    ghost var was := At(root, p).items[k];
    ValueStored(f.hdr, m, root, f.rsv, p, k, idx, val);
    Store(f.mem, prop + 12 + idx, val);
    it := ItemAt(f.mem[..], prop, was.nameoff, |was.value|);
    f.root := Put(root, p, Replace(At(root, p), k, k + 1, [it]));
  }

  lemma WfOpened(h: Header, m: bytes, root: Item, l: seq<Rsv>, p: seq<nat>, k: nat, e: nat)
    requires Wf(h, m, root, l) && IsPath(root, p) && k <= e <= |At(root, p).items|
    ensures Opened(h, m, h, m, root, l, [], p, k, e, |Enc(FlatS(At(root, p).items[k..e]))|)
  {
    hide Enc, ItemPre, Tail, RsvBlock, StringsOf, FlatS, At;
    SplitOccurs(h, m, root, l, p, k, e);
    assert StringsOf(h, m) + [] == StringsOf(h, m);
  }

  lemma WrittenSlice(m: bytes, at: nat, v: bytes, idx: nat, val: bytes)
    requires Occurs(m, at, v) && idx + |val| <= |v|
    ensures at + |v| <= |m| && Written(m, at + idx, val)[at..at + |v|] == Written(v, idx, val)
  {
    var w := Written(m, at + idx, val);
    assert w[at..at + |v|] == m[at..at + idx] + val + m[at + idx + |val|..at + |v|];
    assert v[..idx] == m[at..at + idx] && v[idx + |val|..] == m[at + idx + |val|..at + |v|];
  }

  /** What setting property name to len bytes adds to the size of the blob. */
  ghost function SetCost(t: bytes, its: seq<Item>, name: bytes, len: nat): int {
    var k := FindP(t, its, name);
    if k < |its| then TagAlign(len) - TagAlign(|its[k].value|) else StringCost(t, name) + 12 + TagAlign(len)
  }

  lemma StringKept(t: bytes, name: bytes)
    ensures |t| <= |WithString(t, name)| && WithString(t, name)[..|t|] == t
  {
  }

  /** fdt_setprop_placeholder: prop_data is the index of a value of length len, still to be filled. */
  method SetPropPlaceholder(f: Fdt, nodeoffset: nat, name: bytes, len: nat, ghost p: seq<nat>) returns (err: int, prop_data: nat, ghost it: Item)
    requires f.Valid() && IsPath(f.root, p) && nodeoffset == NodeOff(f.root, p) && NoNul(name) && len < MAX_VALUE
    modifies f, f.mem
    ensures f.Valid() && f.rsv == old(f.rsv)
    ensures err == if old(DataSize(f.hdr) + SetCost(f.Strings(), At(f.root, p).items, name, len) > f.hdr.totalsize) then -FDT_ERR_NOSPACE else 0
    ensures err != 0 ==> Unchanged(old(f.root), old(f.rsv), old(f.Strings()), f)
    ensures err == 0 ==> PropSet(old(f.root), old(f.Strings()), f.root, f.Strings(), p, name, it) && it.Prop? && |it.value| == len
    ensures err == 0 ==> var k := old(SpotOf(f.Strings(), At(f.root, p).items, name).0);
      IsPath(f.root, p) && k < |At(f.root, p).items| && At(f.root, p).items[k] == it && prop_data == HoleAt(f.hdr, f.root, p, k) + 12
    ensures err == 0 ==> GrewBy(old(f.hdr), f.hdr, old(SetCost(f.Strings(), At(f.root, p).items, name, len)))
  {
    hide TagAlign, StringsOf, Wf, Put, At, HoleAt, Replaced, FindP, StringCost, InTable, WithString, ItemPre, OkItem, IsPath;
    prop_data := 0;
    it := Item.Nop;
    WfLaid(f.hdr, f.mem[..], f.root, f.rsv);
    if f.ChkExtra() && RwProbe(f) != 0 { return RwProbe(f), prop_data, it; }
    ghost var root, t := f.root, f.Strings();
    ghost var k, e := SpotOf(t, At(root, p).items, name).0, SpotOf(t, At(root, p).items, name).1;
    var prop;
    err, prop, it := ResizeProperty(f, nodeoffset, name, len, p);
    if err == -FDT_ERR_NOTFOUND {
      err, prop, it := AddProperty(f, nodeoffset, name, len, p);
      StringKept(t, name);
    }
    if err != 0 { return err, prop_data, it; }
    ReplacedIs(f.hdr, f.mem[..], root, f.rsv, p, k, e, it, f.root);
    assert t[..|t|] == t;
    prop_data := prop + 12;
  }

  lemma ReplacedIs(h: Header, m: bytes, root: Item, l: seq<Rsv>, p: seq<nat>, k: nat, e: nat, it: Item, r: Item)
    requires Replaced(h, m, root, l, p, k, e, [it], r)
    ensures root.Node? && IsPath(root, p) && k <= e <= |At(root, p).items|
    ensures r == Put(root, p, Replace(At(root, p), k, e, [it])) && Wf(h, m, r, l)
    ensures IsPath(r, p) && At(r, p) == Replace(At(root, p), k, e, [it])
    ensures k < |At(r, p).items| && At(r, p).items[k] == it
    ensures ItemPre(r, p, k) == ItemPre(root, p, k)
  {
  }
}
