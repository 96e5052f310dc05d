/**
  fdt_rw.c, the byte level: splices of the blob, the strings block and its rollback.
 */
module Splicing {
  import opened Bytes
  import opened Tokens
  import opened Tree
  import opened Meaning
  import opened Blob
  import opened Walk
  import opened Edit

  /** The blocks follow each other: reservations of rsvSize bytes, structure of structSize, strings. */
  predicate InOrder(h: Header, rsvSize: nat, structSize: nat) {
    && HEADER_SIZE <= h.offRsv && h.offRsv + rsvSize <= h.offStruct
    && h.offStruct + structSize <= h.offStrings && h.offStrings + h.sizeStrings <= h.totalsize
  }

  /** fdt_blocks_misordered_ */
  predicate Misordered(h: Header, mask: nat, rsvSize: nat, structSize: nat)
    ensures Misordered(h, mask, rsvSize, structSize) <==> ChecksBasic(mask) && !InOrder(h, rsvSize, structSize)
  {
    ChecksBasic(mask) &&
    (h.offRsv < HEADER_SIZE || h.offStruct < h.offRsv + rsvSize ||
     h.offStrings < h.offStruct + structSize || h.totalsize < h.offStrings + h.sizeStrings)
  }

  /** fdt_rw_probe_ as FDT_RW_PROBE uses it: with checks, a complete blob of version 17 in order or one still being written. */
  function RwProbe(f: Fdt): (r: int)
    reads f
    ensures !f.ChkExtra() || !f.ChkBasic() ==> r == 0
    ensures f.ChkExtra() && f.ChkBasic() && RoProbe(f) < 0 ==> r == RoProbe(f)
    ensures f.ChkExtra() && f.ChkBasic() && RoProbe(f) >= 0 ==>
            (r == 0 <==> (f.ChkVersion() ==> f.hdr.version >= 17) && InOrder(f.hdr, 16, f.hdr.sizeStruct))
    ensures f.ChkExtra() && f.ChkBasic() && RoProbe(f) >= 0 && r != 0 ==>
            r == if f.ChkVersion() && f.hdr.version < 17 then -FDT_ERR_BADVERSION else -FDT_ERR_BADLAYOUT
  {
    if !f.ChkExtra() || !f.ChkBasic() then 0
    else if RoProbe(f) < 0 then RoProbe(f)
    else if f.ChkVersion() && f.hdr.version < 17 then -FDT_ERR_BADVERSION
    else if Misordered(f.hdr, f.mask, 16, f.hdr.sizeStruct) then -FDT_ERR_BADLAYOUT
    else 0
  }

  /** fdt_splice_: oldlen bytes at index p make room for newlen. */
  method Splice(f: Fdt, p: nat, oldlen: nat, newlen: nat) returns (err: int)
    requires Laid(f.hdr, f.mem[..])
    modifies f.mem
    ensures var end := DataSize(f.hdr);
      if p + oldlen > end then err == -FDT_ERR_BADOFFSET && f.mem[..] == old(f.mem[..])
      else if end - oldlen + newlen > f.hdr.totalsize then err == -FDT_ERR_NOSPACE && f.mem[..] == old(f.mem[..])
      else err == 0 && f.mem[..] == Moved(old(f.mem[..]), p + newlen, p + oldlen, end - p - oldlen)
  {
    hide Moved;
    var end := DataSize(f.hdr);
    if p + oldlen < p || p + oldlen > end { return -FDT_ERR_BADOFFSET; }
    if end - oldlen + newlen < 0 { return -FDT_ERR_BADOFFSET; }
    if end - oldlen + newlen > f.hdr.totalsize { return -FDT_ERR_NOSPACE; }
    MemMove(f.mem, p + newlen, p + oldlen, end - p - oldlen);
    return 0;
  }

  /** fdt_splice_struct_ between the parts a and c of the structure block. */
  method SpliceStruct(f: Fdt, p: nat, oldlen: nat, newlen: nat, ghost l: seq<Rsv>, ghost a: bytes, ghost c: bytes) returns (err: int)
    requires var h, m := f.hdr, f.mem[..];
      && Laid(h, m) && h.offRsv + |RsvBlock(l)| <= h.offStruct && Occurs(m, h.offRsv, RsvBlock(l))
      && p == h.offStruct + |a| && h.sizeStruct == |a| + oldlen + |c|
      && Occurs(m, h.offStruct, a) && Occurs(m, p + oldlen, c)
    modifies f`hdr, f.mem
    ensures err == if old(DataSize(f.hdr) - oldlen + newlen > f.hdr.totalsize) then -FDT_ERR_NOSPACE else 0
    ensures err != 0 ==> f.hdr == old(f.hdr) && f.mem[..] == old(f.mem[..])
    ensures err == 0 ==> f.hdr == StructGrown(old(f.hdr), oldlen, newlen)
    ensures err == 0 ==> f.mem[..] == Moved(old(f.mem[..]), p + newlen, p + oldlen, old(DataSize(f.hdr)) - p - oldlen)
    ensures err == 0 ==> Torn(f.hdr, f.mem[..], old(f.hdr), StringsOf(old(f.hdr), old(f.mem[..])), l, a, newlen, c)
  {
    hide Moved, EncRsv, RsvBlock, Torn;
    ghost var h, m := f.hdr, f.mem[..];
    err := Splice(f, p, oldlen, newlen);
    if err != 0 { return; }
    f.hdr := f.hdr.(sizeStruct := f.hdr.sizeStruct + newlen - oldlen);
    f.hdr := f.hdr.(offStrings := f.hdr.offStrings + newlen - oldlen);
    SpliceTorn(h, m, l, a, oldlen, newlen, c);
  }

  // ------------------------------------------------------------------ the strings block

  /** memcmp of s with the buffer at index at. */
  method SameBytes(mem: array<byte>, at: nat, s: bytes) returns (r: bool)
    requires at + |s| <= mem.Length
    ensures r <==> Occurs(mem[..], at, s)
  {
    var k := 0;
    while k < |s| && mem[at + k] == s[k]
      invariant k <= |s| && mem[at..at + k] == s[..k]
    {
      k := k + 1;
    }
    if k < |s| {
      if Occurs(mem[..], at, s) {
        OccursAt(mem[..], at, s, k);
      }
      return false;
    }
    return true;
  }

  /** s with its NUL is in the strings block, as a string or as the end of one. */
  ghost predicate InTable(t: bytes, s: bytes) {
    exists o :: 0 <= o && Occurs(t, o, s + [0])
  }

  /** fdt_find_string_: the first place in a table of the buffer, or -1. */
  method FindString(mem: array<byte>, strtab: nat, tabsize: nat, s: bytes) returns (r: int)
    requires strtab + tabsize <= mem.Length
    ensures var t := mem[strtab..strtab + tabsize];
      if r < 0 then r == -1 && !InTable(t, s)
      else Occurs(t, r, s + [0]) && forall o :: 0 <= o < r ==> !Occurs(t, o, s + [0])
  {
    var len := |s| + 1;
    var last := tabsize - len;
    ghost var t := mem[strtab..strtab + tabsize];
    r := 0;
    while r <= last
      invariant 0 <= r && (r <= last + 1 || r == 0)
      invariant forall o :: 0 <= o < r ==> !Occurs(t, o, s + [0])
    {
      var same := SameBytes(mem, strtab + r, s + [0]);
      OccursSlice(mem[..], strtab, tabsize, r, s + [0]);
      if same { return; }
      r := r + 1;
    }
    return -1;
  }

  /** Space fdt_find_add_string_ takes for name s. */
  ghost function StringCost(t: bytes, s: bytes): nat {
    if InTable(t, s) then 0 else |s| + 1
  }

  /** The strings block once s is in it. */
  ghost function WithString(t: bytes, s: bytes): bytes {
    if InTable(t, s) then t else t + (s + [0])
  }

  lemma OccursHolds(t: bytes, o: nat, s: bytes)
    requires NoNul(s) && Occurs(t, o, s + [0])
    ensures Terminated(t, o) && StrAt(t, o) == s
  {
    OccursCat(t, o, s, [0]);
    OccursAt(t, o + |s|, [0], 0);
    HoldsStrAt(t, o, s);
  }

  /** A string stored after the last one extends the strings block and keeps the tree. */
  lemma StringAdded(h: Header, m: bytes, root: Item, l: seq<Rsv>, s: bytes)
    requires Wf(h, m, root, l) && NoNul(s) && DataSize(h) + |s| + 1 <= h.totalsize
    ensures var h', m', t := h.(sizeStrings := h.sizeStrings + |s| + 1), Written(m, DataSize(h), s + [0]), StringsOf(h, m) + (s + [0]);
      Wf(h', m', root, l) && StringsOf(h', m') == t && Terminated(t, h.sizeStrings) && StrAt(t, h.sizeStrings) == s
  {
    hide Enc, Block, RsvBlock, Written, StrAt, Terminated;
    var u := s + [0];
    var h', m' := h.(sizeStrings := h.sizeStrings + |s| + 1), Written(m, DataSize(h), u);
    WrittenKeeps(m, DataSize(h), u, h.offRsv, RsvBlock(l));
    WrittenKeeps(m, DataSize(h), u, h.offStruct, Enc(Block(root)));
    WrittenKeeps(m, DataSize(h), u, h.offStrings, StringsOf(h, m));
    WrittenHolds(m, DataSize(h), u);
    OccursCat(m', h.offStrings, StringsOf(h, m), u);
    OkGrow(StringsOf(h, m), u, root);
    OccursCat(StringsOf(h, m) + u, 0, StringsOf(h, m), u);
    OccursHolds(StringsOf(h, m) + u, h.sizeStrings, s);
  }

  lemma MovedNothing(m: bytes, dst: nat, src: nat)
    requires dst <= |m| && src <= |m|
    ensures Moved(m, dst, src, 0) == m
  {
  }

  /** fdt_find_add_string_ */
  method FindAddString(f: Fdt, s: bytes) returns (off: int, added: bool)
    requires f.Valid() && NoNul(s)
    modifies f`hdr, f.mem
    ensures f.Valid()
    ensures var t, h := old(f.Strings()), old(f.hdr);
      && added == !InTable(t, s)
      && if DataSize(h) + StringCost(t, s) > h.totalsize
         then off == -FDT_ERR_NOSPACE && f.hdr == h && f.mem[..] == old(f.mem[..])
         else off >= 0 && f.hdr == h.(sizeStrings := h.sizeStrings + StringCost(t, s)) && f.Strings() == WithString(t, s) &&
              Terminated(f.Strings(), off) && StrAt(f.Strings(), off) == s && off < f.hdr.sizeStrings
  {
    hide Moved, Written, EncRsv, RsvBlock, Enc, Block, StrAt, Terminated, OkItem, Wf;
    ghost var h, m := f.hdr, f.mem[..];
    WfLaid(h, m, f.root, f.rsv);
    var p := FindString(f.mem, f.hdr.offStrings, f.hdr.sizeStrings, s);
    added := p < 0;
    if p >= 0 {
      OccursHolds(StringsOf(h, m), p, s);
      return p, added;
    }
    off := f.hdr.sizeStrings;
    var end := DataSize(f.hdr);
    var err := Splice(f, end, 0, |s| + 1);
    if err != 0 { return err, added; }
    MovedNothing(m, end + |s| + 1, end);
    f.hdr := f.hdr.(sizeStrings := f.hdr.sizeStrings + |s| + 1);
    Store(f.mem, end, s + [0]);
    StringAdded(h, m, f.root, f.rsv, s);
  }
}
