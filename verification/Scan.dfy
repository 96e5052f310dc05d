/**
  fdt.c: walking the structure block.  Every function is specified on the tokens of the block;
  Walk.dfy relates those specifications to the tree.  On a block whose size is known no result
  depends on the check mask: each is the same whichever checks are compiled in.
 */
module Scan {
  import opened Bytes
  import opened Tokens
  import opened Tree
  import opened Meaning
  import opened Blob

  /**
    The structure block of the blob at index base holds exactly the tokens ts, complete tree or not.
    The header of version 16 ends before the size of the block: a build without version checks,
    which reads that size all the same, may only be given one that happens to be right.
   */
  ghost predicate ScannableAt(h: Header, m: bytes, base: nat, mask: nat, ts: seq<Tok>) {
    && h.offStruct + |Enc(ts)| <= h.totalsize < INT32_MAX && base + h.totalsize <= |m|
    && h.version >= 16 && (SizeWordUsed(h, mask) ==> h.sizeStruct == |Enc(ts)|)
    && OkToks(ts) && Occurs(m, base + h.offStruct, Enc(ts))
  }

  /** Whether the code takes the size of the structure block from the header. */
  predicate SizeWordUsed(h: Header, mask: nat) {
    !ChecksVersion(mask) || h.version >= 17
  }

  ghost predicate Scannable(f: Fdt, ts: seq<Tok>)
    reads f, f.mem
  {
    ScannableAt(f.hdr, f.mem[..], 0, f.mask, ts)
  }

  lemma ValidScannable(f: Fdt)
    requires f.Valid()
    ensures Scannable(f, Block(f.root))
  {
    OkFlat(f.Strings(), f.root);
  }

  /** Reads at token i of a scannable block find that token's bytes. */
  lemma TokenBytesAt(h: Header, m: bytes, base: nat, mask: nat, ts: seq<Tok>, i: nat)
    requires ScannableAt(h, m, base, mask, ts) && i < |ts|
    ensures Off(ts, i) + |EncTok(ts[i])| == Off(ts, i + 1) <= |Enc(ts)|
    ensures Occurs(m, base + h.offStruct + Off(ts, i), EncTok(ts[i]))
    ensures Off(ts, i) % 4 == 0 == |EncTok(ts[i])| % 4
  {
    hide EncTok;
    EncAt(ts, i);
    OkTokLength(ts[i]);
    assert OkToks(ts[..i]);
    EncAligned(ts[..i]);
    OccursIn(m, base + h.offStruct, Enc(ts), Off(ts, i), EncTok(ts[i]));
  }

  lemma TokenBytes(f: Fdt, ts: seq<Tok>, i: nat)
    requires Scannable(f, ts) && i < |ts|
    ensures Off(ts, i) + |EncTok(ts[i])| == Off(ts, i + 1) <= |Enc(ts)|
    ensures Occurs(f.mem[..], f.hdr.offStruct + Off(ts, i), EncTok(ts[i]))
    ensures Off(ts, i) % 4 == 0 == |EncTok(ts[i])| % 4
    ensures f.hdr.version >= 17 ==> f.hdr.sizeStruct == |Enc(ts)|
  {
    hide EncTok, Enc, Off, Occurs;
    TokenBytesAt(f.hdr, f.mem[..], 0, f.mask, ts, i);
  }

  /** The tag word, and the fields after it. */
  lemma TokenFields(m: bytes, a: nat, t: Tok)
    requires OkTok(t) && Occurs(m, a, EncTok(t))
    ensures a + |EncTok(t)| <= |m| && U32(m, a) == TagOf(t) && |EncTok(t)| >= 4
    ensures PadOf(t) < 4 && (!t.TProp? && !t.TBegin? ==> |EncTok(t)| == 4 && PadOf(t) == 0)
    ensures t.TProp? ==> |EncTok(t)| == 12 + |t.value| + |t.ppad| && U32(m, a + 4) == |t.value| && U32(m, a + 8) == t.nameoff &&
                         Occurs(m, a + 12, t.value)
    ensures t.TBegin? ==> |EncTok(t)| == 4 + |t.name| + 1 + |t.npad| && Occurs(m, a + 4, t.name + [0])
  {
    hide BE32;
    OccursCat(m, a, BE32(TagOf(t)), Body(t));
    U32Of(m, a, TagOf(t));
    match t
    case TProp(o, v, p) =>
      OccursCat(m, a + 4, BE32(|v|) + BE32(o) + v, p);
      OccursCat(m, a + 4, BE32(|v|) + BE32(o), v);
      OccursCat(m, a + 4, BE32(|v|), BE32(o));
      U32Of(m, a + 4, |v|);
      U32Of(m, a + 8, o);
    case TBegin(s, p) =>
      OccursCat(m, a + 4, s + [0], p);
    case _ =>
  }

  /** The number of padding bytes of a token. */
  function PadOf(t: Tok): nat {
    match t
    case TProp(_, _, p) => |p|
    case TBegin(_, p) => |p|
    case _ => 0
  }

  lemma AlignPad(x: nat, pad: nat)
    requires x % 4 == 0 && pad < 4 && pad <= x
    ensures TagAlign(x - pad) == x
  {
  }

  /** Everything fdt_next_tag reads when it stands at token i. */
  lemma TokenIn(h: Header, mem: array<byte>, base: nat, mask: nat, ts: seq<Tok>, i: nat)
    requires ScannableAt(h, mem[..], base, mask, ts) && i < |ts|
    ensures var t, a, n := ts[i], base + h.offStruct + Off(ts, i), Off(ts, i + 1) - Off(ts, i);
      && 4 <= n && Off(ts, i + 1) <= |Enc(ts)| && a + n <= mem.Length
      && Load(mem, a) == TagOf(t)
      && TagAlign(Off(ts, i + 1) - PadOf(t)) == Off(ts, i + 1)
      && (t.TProp? ==> n == 12 + |t.value| + PadOf(t) && Load(mem, a + 4) == |t.value| && Load(mem, a + 8) == t.nameoff)
      && (t.TBegin? ==> n == 4 + |t.name| + 1 + PadOf(t) && Occurs(mem[..], a + 4, t.name + [0]) && NoNul(t.name))
      && (!t.TProp? && !t.TBegin? ==> n == 4 && PadOf(t) == 0)
  {
    hide BE32, U32, EncTok, Enc, Off, NoNul, Occurs;
    TokenBytesAt(h, mem[..], base, mask, ts, i);
    TokenFields(mem[..], base + h.offStruct + Off(ts, i), ts[i]);
    AlignPad(Off(ts, i) + |EncTok(ts[i])|, PadOf(ts[i]));
    assert OkTok(ts[i]);
  }

  lemma TokenAt(f: Fdt, ts: seq<Tok>, i: nat)
    requires Scannable(f, ts) && i < |ts|
    ensures var t, a, n := ts[i], f.hdr.offStruct + Off(ts, i), Off(ts, i + 1) - Off(ts, i);
      && 4 <= n && Off(ts, i + 1) <= |Enc(ts)| && a + n <= f.mem.Length
      && Load(f.mem, a) == TagOf(t)
      && TagAlign(Off(ts, i + 1) - PadOf(t)) == Off(ts, i + 1)
      && (t.TProp? ==> n == 12 + |t.value| + PadOf(t) && Load(f.mem, a + 4) == |t.value| && Load(f.mem, a + 8) == t.nameoff)
      && (t.TBegin? ==> n == 4 + |t.name| + 1 + PadOf(t) && Occurs(f.mem[..], a + 4, t.name + [0]) && NoNul(t.name))
      && (!t.TProp? && !t.TBegin? ==> n == 4 && PadOf(t) == 0)
    ensures f.hdr.version >= 17 ==> f.hdr.sizeStruct == |Enc(ts)|
  {
    hide Enc, Off, Load, Occurs, TagAlign;
    TokenIn(f.hdr, f.mem, 0, f.mask, ts, i);
  }

  /** The first NUL after a BEGIN_NODE tag ends the name. */
  lemma NameByte(m: bytes, a: nat, s: bytes, k: nat)
    requires NoNul(s) && Occurs(m, a, s + [0]) && k <= |s|
    ensures m[a + k] == 0 <==> k == |s|
  {
    OccursAt(m, a, s + [0], k);
  }

  // ------------------------------------------------------------------ fdt_offset_ptr, fdt_next_tag

  /** An index into the buffer, or NULL; C computes in 32-bit unsigned arithmetic. */
  datatype Ptr = Null | Ptr(at: int)

  /** fdt_offset_ptr for the blob at index base: no sum wraps for a range inside 2^31 bytes. */
  function OffsetPtrAt(h: Header, base: nat, mask: nat, offset: int, len: nat): (r: Ptr)
    requires 0 <= offset && offset + len < INT32_MAX && h.offStruct <= h.totalsize < INT32_MAX
    ensures r.Null? <==> (ChecksBasic(mask) && h.offStruct + offset + len > h.totalsize) || (SizeWordUsed(h, mask) && offset + len > h.sizeStruct)
    ensures r.Ptr? ==> r.at == base + h.offStruct + offset
  {
    var abs := (offset + h.offStruct) % TWO32;
    if ChecksBasic(mask) && (abs < offset || (abs + len) % TWO32 < abs || (abs + len) % TWO32 > h.totalsize) then Null
    else if (!ChecksVersion(mask) || h.version >= 0x11) &&
            ((offset + len) % TWO32 < offset || (offset + len) % TWO32 > h.sizeStruct) then Null
    else Ptr.Ptr(base + h.offStruct + offset)
  }

  function OffsetPtr(f: Fdt, offset: int, len: nat): (r: Ptr)
    requires 0 <= offset && offset + len < INT32_MAX
    requires f.hdr.version == 17 && f.hdr.offStruct + f.hdr.sizeStruct <= f.hdr.totalsize < INT32_MAX
    reads f
    ensures r == if offset + len <= f.hdr.sizeStruct then Ptr.Ptr(f.hdr.offStruct + offset) else Null
  {
    OffsetPtrAt(f.hdr, 0, f.mask, offset, len)
  }

  /** The name loop: fdt_next_tag steps over the name a byte at a time. */
  method SkipName(mem: array<byte>, base: nat, h: Header, mask: nat, start: nat, ghost s: bytes) returns (offset: nat, p: Ptr)
    requires NoNul(s) && Occurs(mem[..], base + h.offStruct + start, s + [0])
    requires h.offStruct + start + |s| + 1 <= h.totalsize < INT32_MAX && (SizeWordUsed(h, mask) ==> start + |s| + 1 <= h.sizeStruct)
    ensures offset == start + |s| + 1 && p.Ptr?
  {
    offset := start;
    p := OffsetPtrAt(h, base, mask, offset, 1);
    offset := offset + 1;
    NameByte(mem[..], base + h.offStruct + start, s, 0);
    while p.Ptr? && mem[p.at] != 0
      invariant start + 1 <= offset <= start + 1 + |s|
      invariant p == Ptr.Ptr(base + h.offStruct + offset - 1)
      invariant mem[p.at] == 0 <==> offset == start + 1 + |s|
      decreases start + 1 + |s| - offset
    {
      p := OffsetPtrAt(h, base, mask, offset, 1);
      NameByte(mem[..], base + h.offStruct + start, s, offset - start);
      offset := offset + 1;
    }
  }

  lemma ScanBounds(h: Header, m: bytes, base: nat, mask: nat, ts: seq<Tok>)
    requires ScannableAt(h, m, base, mask, ts)
    ensures h.offStruct + |Enc(ts)| <= h.totalsize < INT32_MAX && h.version >= 16
    ensures SizeWordUsed(h, mask) ==> h.sizeStruct == |Enc(ts)|
  {
  }

  predicate Aligned8(x: int) {
    x % 8 == 0
  }

  /** fdt_next_tag for the blob at index base. */
  method NextTagAt(mem: array<byte>, base: nat, h: Header, mask: nat, startoffset: nat, ghost ts: seq<Tok>, ghost i: nat)
    returns (tag: nat, nextoffset: int)
    requires ScannableAt(h, mem[..], base, mask, ts) && i < |ts| && startoffset == Off(ts, i)
    ensures tag == TagOf(ts[i]) && nextoffset == Off(ts, i + 1)
  {
    hide BE32, EncTok, Body, U32, Load, Enc, OffsetPtrAt, Off, ChecksBasic, ChecksVersion, ScannableAt, SizeWordUsed, Occurs, NoNul, TagAlign;
    ScanBounds(h, mem[..], base, mask, ts);
    var offset := startoffset;
    TokenIn(h, mem, base, mask, ts, i);
    var tagp := OffsetPtrAt(h, base, mask, offset, 4);
    if ChecksBasic(mask) && tagp.Null? { return FDT_END, -FDT_ERR_TRUNCATED; }
    tag := Load(mem, tagp.at);
    offset := offset + 4;
    if tag == FDT_BEGIN_NODE {
      var p;
      offset, p := SkipName(mem, base, h, mask, offset, ts[i].name);
      if ChecksBasic(mask) && p.Null? { return FDT_END, -FDT_ERR_BADSTRUCTURE; }
    } else if tag == FDT_PROP {
      var lenp := OffsetPtrAt(h, base, mask, offset, 4);
      if ChecksBasic(mask) && lenp.Null? { return FDT_END, -FDT_ERR_BADSTRUCTURE; }
      var len := Load(mem, lenp.at);
      offset := offset + (12 - 4) + len;
      if ChecksVersion(mask) && h.version < 0x10 && len >= 8 && !Aligned8(offset - len) { offset := offset + 4; }
    } else if tag == FDT_END || tag == FDT_END_NODE || tag == FDT_NOP {
    } else {
      return FDT_END, -FDT_ERR_BADSTRUCTURE;
    }
    if ChecksBasic(mask) && OffsetPtrAt(h, base, mask, startoffset, offset - startoffset).Null? { return FDT_END, -FDT_ERR_BADSTRUCTURE; }
    nextoffset := TagAlign(offset);
  }

  method NextTag(f: Fdt, startoffset: nat, ghost ts: seq<Tok>, ghost i: nat) returns (tag: nat, nextoffset: int)
    requires Scannable(f, ts) && i < |ts| && startoffset == Off(ts, i)
    ensures tag == TagOf(ts[i]) && nextoffset == Off(ts, i + 1)
  {
    tag, nextoffset := NextTagAt(f.mem, 0, f.hdr, f.mask, startoffset, ts, i);
  }
}
