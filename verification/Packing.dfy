/**
  fdt_pack and fdt_open_into of fdt_rw.c: the blocks of a blob put in order one after the other.
  fdt and buf of fdt_open_into are places in one memory and may overlap.
 */
module Packing {
  import opened Bytes
  import opened Tokens
  import opened Tree
  import opened Meaning
  import opened Blob
  import opened Scan
  import opened Walk
  import opened Splicing
  import opened Reserve

  const V16_HEADER_SIZE: nat := 36

  /** No block begins before offset n. */
  predicate PastHeader(h: Header, n: nat) {
    n <= h.offRsv && n <= h.offStruct && n <= h.offStrings
  }

  /**
    The blob at index base, of version 16 or later, holds tree root and reservations l, its three
    blocks being anywhere behind the header.  The header of version 16 has no size of the structure.
   */
  ghost predicate Held(h: Header, m: bytes, base: nat, root: Item, t: bytes, l: seq<Rsv>) {
    && HasRsv(h, m, base, l) && h.magic == FDT_MAGIC && h.version >= 16 && h.lastComp <= 17
    && PastHeader(h, if h.version >= 17 then HEADER_SIZE else V16_HEADER_SIZE)
    && h.offStruct + |Enc(Block(root))| <= h.totalsize && h.offStrings + h.sizeStrings <= h.totalsize
    && root.Node? && OkItem(t, root) && h.sizeStrings == |t| && (h.version >= 17 ==> h.sizeStruct == |Enc(Block(root))|)
    && Occurs(m, base + h.offStruct, Enc(Block(root))) && Occurs(m, base + h.offStrings, t)
  }

  /** The header fdt_packblocks_ leaves at its target. */
  function PackedHdr(h: Header, rsvSize: nat, structSize: nat): Header {
    var structOff := HEADER_SIZE + rsvSize;
    h.(offRsv := HEADER_SIZE, offStruct := structOff, sizeStruct := structSize, offStrings := structOff + structSize)
  }

  /** The size of the packed data. */
  function PackedSize(h: Header, rsvSize: nat): nat {
    HEADER_SIZE + rsvSize + h.sizeStruct + h.sizeStrings
  }

  /** The three blocks are packed at index base. */
  ghost predicate PackedAt(h: Header, m: bytes, base: nat, root: Item, t: bytes, l: seq<Rsv>) {
    var a := base + HEADER_SIZE;
    var b := a + |RsvBlock(l)|;
    && Occurs(m, a, RsvBlock(l)) && Occurs(m, b, Enc(Block(root))) && Occurs(m, b + h.sizeStruct, t)
  }

  predicate Apart(a: nat, n: nat, b: nat, k: nat) {
    a + n <= b || b + k <= a
  }

  /** Three pieces moved one after the other, none onto a piece still to be moved. */
  lemma ThreeMoves(m: bytes, a: nat, x: nat, u: bytes, b: nat, y: nat, v: bytes, c: nat, z: nat, w: bytes)
    requires Occurs(m, x, u) && Occurs(m, y, v) && Occurs(m, z, w)
    requires b == a + |u| && c == b + |v| && c + |w| <= |m|
    requires Apart(a, |u|, y, |v|) && Apart(a, |u|, z, |w|) && Apart(b, |v|, z, |w|)
    ensures x + |u| <= |m| && y + |v| <= |m| && z + |w| <= |m|
    ensures var r := Moved(Moved(Moved(m, a, x, |u|), b, y, |v|), c, z, |w|); Occurs(r, a, u) && Occurs(r, b, v) && Occurs(r, c, w)
  {
    hide Moved, Occurs;
    Bounds(m, x, u);
    Bounds(m, y, v);
    Bounds(m, z, w);
    var m1 := Moved(m, a, x, |u|);
    var m2 := Moved(m1, b, y, |v|);
    MovedTo(m, a, x, |u|, x, u);
    MovedApart(m, a, x, |u|, y, v);
    MovedApart(m, a, x, |u|, z, w);
    MovedBefore(m1, b, y, |v|, a, u);
    MovedTo(m1, b, y, |v|, y, v);
    MovedApart(m1, b, y, |v|, z, w);
    MovedBefore(m2, c, z, |w|, a, u);
    MovedBefore(m2, c, z, |w|, b, v);
    MovedTo(m2, c, z, |w|, z, w);
  }

  lemma Bounds(m: bytes, x: nat, u: bytes)
    requires Occurs(m, x, u)
    ensures x + |u| <= |m|
  {
  }

  /** Packing in place moves every block down past nothing; packing into space apart may start from any order. */
  lemma Packed(h: Header, m: bytes, fdt: nat, to: nat, root: Item, t: bytes, l: seq<Rsv>)
    requires Held(h, m, fdt, root, t, l) && h.sizeStruct == |Enc(Block(root))| && to + PackedSize(h, |RsvBlock(l)|) <= |m|
    requires (to == fdt && InOrder(h, |RsvBlock(l)|, h.sizeStruct)) || to + PackedSize(h, |RsvBlock(l)|) <= fdt || fdt + h.totalsize <= to
    ensures var n := |RsvBlock(l)|;
      var m1 := Moved(m, to + HEADER_SIZE, fdt + h.offRsv, n);
      var m2 := Moved(m1, to + HEADER_SIZE + n, fdt + h.offStruct, h.sizeStruct);
      PackedAt(h, Moved(m2, to + HEADER_SIZE + n + h.sizeStruct, fdt + h.offStrings, h.sizeStrings), to, root, t, l)
  {
    hide Moved, Occurs, Enc, Block, RsvBlock, OkItem;
    var a := to + HEADER_SIZE;
    ThreeMoves(m, a, fdt + h.offRsv, RsvBlock(l), a + |RsvBlock(l)|, fdt + h.offStruct, Enc(Block(root)),
               a + |RsvBlock(l)| + h.sizeStruct, fdt + h.offStrings, t);
  }

  /** Packed blocks with a header for them are a well-formed blob. */
  lemma PackedWf(h: Header, m: bytes, base: nat, n: nat, root: Item, t: bytes, l: seq<Rsv>, h': Header)
    requires PackedAt(h, m, base, root, t, l) && base + n <= |m| && PackedSize(h, |RsvBlock(l)|) <= n < INT32_MAX
    requires h.sizeStruct == |Enc(Block(root))| && h.sizeStrings == |t| && root.Node? && OkItem(t, root) && OkRsv(l)
    requires h' == PackedHdr(h, |RsvBlock(l)|, h.sizeStruct).(totalsize := n, magic := FDT_MAGIC, version := 17,
                                                              lastComp := h'.lastComp, bootCpu := h'.bootCpu)
    requires h'.lastComp <= 17
    ensures Wf(h', m[base..base + n], root, l) && StringsOf(h', m[base..base + n]) == t
  {
    hide Enc, Block, RsvBlock, OkItem, Occurs;
    var w, k := m[base..base + n], |RsvBlock(l)|;
    OccursSlice(m, base, n, HEADER_SIZE, RsvBlock(l));
    OccursSlice(m, base, n, HEADER_SIZE + k, Enc(Block(root)));
    OccursSlice(m, base, n, HEADER_SIZE + k + h.sizeStruct, t);
    StringsAt(h', w, t);
  }

  /** A well-formed blob at the start of a buffer. */
  lemma WfHeld(h: Header, m: bytes, root: Item, l: seq<Rsv>)
    requires Wf(h, m, root, l)
    ensures Held(h, m, 0, root, StringsOf(h, m), l) && InOrder(h, |RsvBlock(l)|, h.sizeStruct) && h.version == 17
  {
    hide Enc, Block, RsvBlock, OkItem;
  }

  /** fdt_packblocks_ */
  method PackBlocks(mem: array<byte>, fdt: nat, h: Header, to: nat, rsvSize: nat, structSize: nat) returns (h': Header)
    requires to + HEADER_SIZE + rsvSize + structSize + h.sizeStrings <= mem.Length
    requires fdt + h.totalsize <= mem.Length && h.offRsv + rsvSize <= h.totalsize
    requires fdt + h.offStruct + structSize <= mem.Length && h.offStrings + h.sizeStrings <= h.totalsize
    requires to + HEADER_SIZE + rsvSize + structSize + h.sizeStrings < INT32_MAX
    requires fdt + h.totalsize < INT32_MAX && fdt + h.offStruct + structSize < INT32_MAX
    modifies mem
    ensures h' == PackedHdr(h, rsvSize, structSize)
    ensures var m1 := Moved(old(mem[..]), to + HEADER_SIZE, fdt + h.offRsv, rsvSize);
      var m2 := Moved(m1, to + HEADER_SIZE + rsvSize, fdt + h.offStruct, structSize);
      mem[..] == Moved(m2, to + HEADER_SIZE + rsvSize + structSize, fdt + h.offStrings, h.sizeStrings)
  {
    hide Moved;
    var memRsvOff := HEADER_SIZE;
    var structOff := memRsvOff + rsvSize;
    var stringsOff := structOff + structSize;
    MemMove(mem, to + memRsvOff, fdt + h.offRsv, rsvSize);
    h' := h.(offRsv := memRsvOff);
    MemMove(mem, to + structOff, fdt + h.offStruct, structSize);
    h' := h'.(offStruct := structOff);
    h' := h'.(sizeStruct := structSize);
    MemMove(mem, to + stringsOff, fdt + h.offStrings, h.sizeStrings);
    h' := h'.(offStrings := stringsOff);
    h' := h'.(sizeStrings := h.sizeStrings);
  }

  /** fdt_pack: tree and reservations stay, the total size is exactly that of the contents. */
  method Pack(f: Fdt) returns (err: int)
    requires f.Valid()
    modifies f`hdr, f.mem
    ensures err == 0 && f.Valid() && f.Strings() == old(f.Strings())
    ensures var n := |RsvBlock(f.rsv)|; f.hdr == PackedHdr(old(f.hdr), n, old(f.hdr.sizeStruct)).(totalsize := PackedSize(old(f.hdr), n))
    ensures IsPacked(f.hdr, |RsvBlock(f.rsv)|)
  {
    hide Moved, Enc, Block, RsvBlock, OkItem, Wf, StringsOf, PackedAt, Held;
    ghost var h, m, t := f.hdr, f.mem[..], f.Strings();
    WfHeld(h, m, f.root, f.rsv);
    WfRsv(h, m, f.root, f.rsv);
    HeldFacts(h, m, 0, f.root, t, f.rsv);
    err := RwProbe(f);
    if f.ChkExtra() && err != 0 { return; }
    var num := NumMemRsv(f.mem, 0, f.hdr, f.ChkExtra(), f.rsv);
    var rsvSize := (num + 1) * 16;
    Packed(h, m, 0, 0, f.root, t, f.rsv);
    f.hdr := PackBlocks(f.mem, 0, f.hdr, 0, rsvSize, f.hdr.sizeStruct);
    f.hdr := f.hdr.(totalsize := f.hdr.offStrings + f.hdr.sizeStrings);
    PackedWf(h, f.mem[..], 0, f.hdr.totalsize, f.root, t, f.rsv, f.hdr);
    PrefixWf(f.hdr, f.mem[..], f.hdr.totalsize, f.root, f.rsv);
    return 0;
  }

  lemma HeldFacts(h: Header, m: bytes, base: nat, root: Item, t: bytes, l: seq<Rsv>)
    requires Held(h, m, base, root, t, l)
    ensures HasRsv(h, m, base, l) && h.sizeStrings == |t| && root.Node? && OkItem(t, root) && OkRsv(l)
    ensures h.version >= 17 ==> h.sizeStruct == |Enc(Block(root))| && PastHeader(h, HEADER_SIZE)
    ensures h.offStruct + |Enc(Block(root))| <= h.totalsize && h.offStrings + h.sizeStrings <= h.totalsize && base + h.totalsize <= |m|
    ensures h.magic == FDT_MAGIC && h.version >= 16 && h.lastComp <= 17
  {
  }

  /** Bytes past the end of a blob do not matter. */
  lemma PrefixWf(h: Header, m: bytes, n: nat, root: Item, l: seq<Rsv>)
    requires n <= |m| && h.totalsize <= n
    ensures Wf(h, m[0..n], root, l) <==> Wf(h, m, root, l)
    ensures h.offStrings + h.sizeStrings <= n ==> StringsOf(h, m[0..n]) == StringsOf(h, m)
  {
    hide Enc, Block, RsvBlock, OkItem, Occurs;
    if h.offRsv + |RsvBlock(l)| <= n && h.offStruct + |Enc(Block(root))| <= n {
      OccursSlice(m, 0, n, h.offRsv, RsvBlock(l));
      OccursSlice(m, 0, n, h.offStruct, Enc(Block(root)));
    }
    if h.offStrings + h.sizeStrings <= n {
      assert m[0..n][h.offStrings..h.offStrings + h.sizeStrings] == m[h.offStrings..h.offStrings + h.sizeStrings];
    }
  }

  // ------------------------------------------------------------------ packed blobs

  /** No gap between the blocks. */
  predicate IsPacked(h: Header, rsvSize: nat) {
    h == PackedHdr(h, rsvSize, h.sizeStruct).(totalsize := PackedSize(h, rsvSize))
  }

  /** A packed blob is determined by its header, tree, reservations and strings. */
  lemma PackedBytes(h: Header, m: bytes, m': bytes, root: Item, l: seq<Rsv>)
    requires Wf(h, m, root, l) && Wf(h, m', root, l) && StringsOf(h, m) == StringsOf(h, m') && IsPacked(h, |RsvBlock(l)|)
    ensures m[HEADER_SIZE..h.totalsize] == m'[HEADER_SIZE..h.totalsize]
  {
    hide Enc, Block, RsvBlock, OkItem;
    PackedIs(h, m, root, l);
    PackedIs(h, m', root, l);
  }

  lemma PackedIs(h: Header, m: bytes, root: Item, l: seq<Rsv>)
    requires Wf(h, m, root, l) && IsPacked(h, |RsvBlock(l)|)
    ensures m[HEADER_SIZE..h.totalsize] == RsvBlock(l) + Enc(Block(root)) + StringsOf(h, m)
  {
    hide Enc, Block, RsvBlock, OkItem;
    OccursCat(m, HEADER_SIZE, RsvBlock(l), Enc(Block(root)));
    OccursCat(m, HEADER_SIZE, RsvBlock(l) + Enc(Block(root)), StringsOf(h, m));
  }

  /** Packing is idempotent: what fdt_pack leaves of a packed blob is the same header and the same contents. */
  lemma PackIdempotent(h: Header, m: bytes, h': Header, m': bytes, root: Item, l: seq<Rsv>)
    requires Wf(h, m, root, l) && IsPacked(h, |RsvBlock(l)|)
    requires Wf(h', m', root, l) && StringsOf(h', m') == StringsOf(h, m)
    requires h' == PackedHdr(h, |RsvBlock(l)|, h.sizeStruct).(totalsize := PackedSize(h, |RsvBlock(l)|))
    ensures h' == h && m'[HEADER_SIZE..h.totalsize] == m[HEADER_SIZE..h.totalsize]
  {
    hide Enc, Block, RsvBlock, OkItem, StringsOf;
    PackedBytes(h, m, m', root, l);
  }

  // ------------------------------------------------------------------ the size of the structure block

  /** The size fdt_open_into works with, for a block of n bytes. */
  function SizeRead(h: Header, mask: nat, n: nat): nat {
    if SizeWordUsed(h, mask) then h.sizeStruct else n
  }

  /** Header h of a blob whose structure block has n bytes; w is the word where only version 17 keeps that size. */
  function WithWord(h: Header, n: nat, w: nat): Header {
    h.(sizeStruct := if h.version >= 17 then n else w)
  }

  /** The size is right, whatever that word, exactly if versions are checked or the header has the size. */
  lemma SizeReadRight(h: Header, mask: nat, n: nat)
    ensures (forall w: nat :: SizeRead(WithWord(h, n, w), mask, n) == n) <==> ChecksVersion(mask) || h.version >= 17
  {
    assert SizeRead(WithWord(h, n, n + 1), mask, n) == n ==> ChecksVersion(mask) || h.version >= 17;
  }

  lemma {:induction false} NoFin(it: Item)
    ensures forall j :: 0 <= j < |Flat(it)| ==> !Flat(it)[j].TFin?
    decreases it, 1
  {
    if it.Node? {
      NoFinS(it.items);
    }
  }

  lemma {:induction false} NoFinS(its: seq<Item>)
    ensures forall j :: 0 <= j < |FlatS(its)| ==> !FlatS(its)[j].TFin?
    decreases its, 0
  {
    hide Flat;
    if its != [] {
      NoFin(its[0]);
      NoFinS(its[1..]);
    }
  }

  lemma BlockEnd(root: Item)
    ensures var ts := Block(root); ts != [] && Off(ts, |ts|) == |Enc(ts)| && Off(ts, 0) == 0
    ensures var ts := Block(root); forall i :: 0 <= i < |ts| ==> (TagOf(ts[i]) == FDT_END <==> i == |ts| - 1)
  {
    hide Enc;
    var ts := Block(root);
    NoFin(root);
    OffZero(ts);
    assert ts[..|ts|] == ts;
    forall i | 0 <= i < |ts| ensures TagOf(ts[i]) == FDT_END <==> i == |ts| - 1 {
      assert i < |ts| - 1 ==> ts[i] == Flat(root)[i];
    }
  }

  /** The size computation of fdt_open_into: the loop over the tags stops just past FDT_END. */
  method StructSize(mem: array<byte>, fdt: nat, h: Header, mask: nat, ghost root: Item) returns (size: int)
    requires SizeWordUsed(h, mask) || ScannableAt(h, mem[..], fdt, mask, Block(root))
    ensures size == SizeRead(h, mask, |Enc(Block(root))|)
  {
    hide Enc, Block, Off, ScannableAt;
    if !ChecksVersion(mask) || h.version >= 17 { return h.sizeStruct; }
    ghost var ts, i := Block(root), 0;
    BlockEnd(root);
    var tag;
    tag, size := NextTagAt(mem, fdt, h, mask, 0, ts, 0);
    while tag != FDT_END
      invariant i < |ts| && tag == TagOf(ts[i]) && size == Off(ts, i + 1)
      decreases |ts| - i
    {
      i := i + 1;
      tag, size := NextTagAt(mem, fdt, h, mask, size, ts, i);
    }
  }

  lemma HeldScannable(h: Header, m: bytes, base: nat, mask: nat, root: Item, t: bytes, l: seq<Rsv>)
    requires Held(h, m, base, root, t, l)
    ensures SizeWordUsed(h, mask) || ScannableAt(h, m, base, mask, Block(root))
  {
    OkFlat(t, root);
  }

  // ------------------------------------------------------------------ fdt_open_into

  /** The target of the conversion: the buffer, unless that overlaps the old blob. */
  function Target(fdt: nat, fdtend: nat, buf: nat, newsize: nat): nat {
    if buf + newsize > fdt && buf < fdtend then fdtend else buf
  }

  /**
    What fdt_open_into returns when it takes the structure block to have n bytes, in a memory of
    room bytes: STRAY is for a wrong size that makes it read past the memory.
   */
  function OpenError(h: Header, mask: nat, rsvSize: nat, n: nat, fdt: nat, buf: nat, bufsize: nat, room: nat): int {
    var newsize, end := PackedSize(h.(sizeStruct := n), rsvSize), fdt + h.totalsize;
    if !Misordered(h, mask, rsvSize, n) then if bufsize < h.totalsize then -FDT_ERR_NOSPACE else 0
    else if bufsize < newsize || (Target(fdt, end, buf, newsize) != buf && end + newsize > buf + bufsize) then -FDT_ERR_NOSPACE
    else if fdt + h.offStruct + n > room then -STRAY
    else 0
  }

  /**
    It succeeds exactly if there is room: for the old blob if that is only copied; for the packed
    one if it is reordered, and then also behind the old blob if it cannot be packed in the buffer
    at once.  The bytes it takes for the structure must be there.
   */
  lemma OpenSucceeds(h: Header, mask: nat, rsvSize: nat, n: nat, fdt: nat, buf: nat, bufsize: nat, room: nat)
    ensures var need, end := 40 + rsvSize + n + h.sizeStrings, fdt + h.totalsize;
      OpenError(h, mask, rsvSize, n, fdt, buf, bufsize, room) == 0 <==>
        if !Misordered(h, mask, rsvSize, n) then h.totalsize <= bufsize
        else
          && need <= bufsize && fdt + h.offStruct + n <= room
          && (buf + need <= fdt || end <= buf || end + need <= buf + bufsize)
    ensures OpenError(h, mask, rsvSize, n, fdt, buf, bufsize, room) in {0, -FDT_ERR_NOSPACE, -STRAY}
  {
  }

  /** The header it leaves: that of a packed blob, or the old one relabelled if it sees no reason to reorder. */
  function OpenedHdr(h: Header, mask: nat, rsvSize: nat, n: nat, bufsize: nat, cpu: nat): Header {
    if Misordered(h, mask, rsvSize, n) then
      Header(FDT_MAGIC, bufsize, HEADER_SIZE + rsvSize, HEADER_SIZE + rsvSize + n, HEADER_SIZE, 17, 16, cpu, h.sizeStrings, n)
    else
      h.(version := 17, sizeStruct := n, totalsize := bufsize)
  }

  /** The blocks end up in order exactly if the build looks at their order, or they were in order before. */
  lemma OrderLeft(h: Header, mask: nat, rsvSize: nat, n: nat, bufsize: nat, cpu: nat)
    requires h.offStrings + h.sizeStrings <= h.totalsize
    requires bufsize >= if Misordered(h, mask, rsvSize, n) then PackedSize(h.(sizeStruct := n), rsvSize) else h.totalsize
    ensures InOrder(OpenedHdr(h, mask, rsvSize, n, bufsize, cpu), rsvSize, n) <==> ChecksBasic(mask) || InOrder(h, rsvSize, n)
  {
  }

  /** The smallest tree: a root without items. */
  function EmptyRoot(): Item {
    Node([], [0, 0, 0], [])
  }

  lemma EmptyList()
    ensures RsvBlock([]) == Zeros(16)
  {
    assert BE64(0) == [0, 0, 0, 0, 0, 0, 0, 0];
    assert EncRsv([Rsv(0, 0)][1..]) == [];
    assert [] + [Rsv(0, 0)] == [Rsv(0, 0)];
  }

  lemma EmptyRootBytes()
    ensures |Enc(Block(EmptyRoot()))| == 16 && RsvBlock([]) == Zeros(16)
    ensures forall t :: OkItem(t, EmptyRoot())
  {
    hide BE32, Enc, RsvBlock;
    EmptyList();
    var a, b, c := TBegin([], [0, 0, 0]), TEnd, TFin;
    assert Block(EmptyRoot()) == [a, b, c];
    EncConcat([a], [b] + [c]);
    EncConcat([b], [c]);
    assert [a] + ([b] + [c]) == [a, b, c];
    EncOne(a);
    EncOne(b);
    EncOne(c);
  }

  lemma InZeros(n: nat, at: nat, k: nat)
    requires at + k <= n
    ensures Occurs(Zeros(n), at, Zeros(k))
  {
  }

  lemma Before<X>(a: seq<X>, b: seq<X>, at: nat, u: seq<X>)
    requires Occurs(a, at, u)
    ensures Occurs(a + b, at, u) && Occurs(a + b, |a|, b)
  {
    assert (a + b)[at..at + |u|] == a[at..at + |u|];
  }

  /** The blob of an empty root with its strings before it: the build without checks leaves them there. */
  lemma OrderLost(cpu: nat)
    ensures var h, m := Header(FDT_MAGIC, 80, 64, 56, 40, 17, 16, 0, 8, 16), Zeros(64) + Enc(Block(EmptyRoot()));
      && Held(h, m, 0, EmptyRoot(), Zeros(8), [])
      && !InOrder(OpenedHdr(h, 0xff, 16, 16, 80, cpu), 16, 16) && InOrder(OpenedHdr(h, 0, 16, 16, 80, cpu), 16, 16)
  {
    hide Occurs, Enc, Block, RsvBlock, OkItem;
    EmptyRootBytes();
    InZeros(64, 40, 16);
    InZeros(64, 56, 8);
    Before(Zeros(64), Enc(Block(EmptyRoot())), 40, Zeros(16));
    Before(Zeros(64), Enc(Block(EmptyRoot())), 56, Zeros(8));
  }

  /**
    A blob of version 16 in a build without checks: the size it gets is the padding before the
    reservations, and the header it leaves does not hold the tree.
   */
  lemma SizeLost(cpu: nat)
    ensures var h, m := Header(FDT_MAGIC, 80, 56, 72, 40, 16, 16, 0, 8, 0), Zeros(56) + Enc(Block(EmptyRoot())) + Zeros(8);
      && Held(h, m, 0, EmptyRoot(), Zeros(8), []) && U32(m, 36) == h.sizeStruct
      && OpenedHdr(h, 0xff, 16, SizeRead(h, 0xff, 16), 80, cpu).sizeStruct == 0
      && OpenedHdr(h, 0, 16, SizeRead(h, 0, 16), 80, cpu).sizeStruct == 16
      && forall m', base :: !Held(OpenedHdr(h, 0xff, 16, 0, 80, cpu), m', base, EmptyRoot(), Zeros(8), [])
  {
    hide Occurs, Enc, Block, RsvBlock, OkItem;
    var e := Enc(Block(EmptyRoot()));
    EmptyRootBytes();
    InZeros(56, 40, 16);
    Before(Zeros(56), e, 40, Zeros(16));
    Before(Zeros(56) + e, Zeros(8), 40, Zeros(16));
    Before(Zeros(56) + e, Zeros(8), 56, e);
  }

  /** What is left of a packed blob once it is moved to the buffer. */
  lemma PackedMoved(h: Header, m: bytes, tmp: nat, buf: nat, n: nat, root: Item, t: bytes, l: seq<Rsv>)
    requires PackedAt(h, m, tmp, root, t, l) && h.sizeStruct == |Enc(Block(root))| && h.sizeStrings == |t|
    requires n == PackedSize(h, |RsvBlock(l)|) && tmp + n <= |m| && buf + n <= |m|
    ensures PackedAt(h, Moved(m, buf, tmp, n), buf, root, t, l)
  {
    hide Moved, Occurs, Enc, Block, RsvBlock;
    var k := |RsvBlock(l)|;
    MovedTo(m, buf, tmp, n, tmp + HEADER_SIZE, RsvBlock(l));
    MovedTo(m, buf, tmp, n, tmp + HEADER_SIZE + k, Enc(Block(root)));
    MovedTo(m, buf, tmp, n, tmp + HEADER_SIZE + k + h.sizeStruct, t);
  }

  /** A blob copied to the buffer as it is and relabelled. */
  lemma WholeMoved(h: Header, m: bytes, fdt: nat, buf: nat, bufsize: nat, root: Item, t: bytes, l: seq<Rsv>)
    requires Held(h, m, fdt, root, t, l) && PastHeader(h, HEADER_SIZE)
    requires h.totalsize <= bufsize < INT32_MAX && buf + bufsize <= |m|
    ensures Held(h.(version := 17, sizeStruct := |Enc(Block(root))|, totalsize := bufsize), Moved(m, buf, fdt, h.totalsize), buf, root, t, l)
  {
    hide Moved, Occurs, Enc, Block, RsvBlock, OkItem;
    MovedTo(m, buf, fdt, h.totalsize, fdt + h.offRsv, RsvBlock(l));
    MovedTo(m, buf, fdt, h.totalsize, fdt + h.offStruct, Enc(Block(root)));
    MovedTo(m, buf, fdt, h.totalsize, fdt + h.offStrings, t);
  }

  /** Packed blocks with their header hold the tree. */
  lemma PackedHeld(h: Header, m: bytes, base: nat, root: Item, t: bytes, l: seq<Rsv>)
    requires PackedAt(h, m, base, root, t, l) && base + h.totalsize <= |m| && PackedSize(h, |RsvBlock(l)|) <= h.totalsize < INT32_MAX
    requires h.sizeStruct == |Enc(Block(root))| && h.sizeStrings == |t| && root.Node? && OkItem(t, root) && OkRsv(l)
    requires h == PackedHdr(h, |RsvBlock(l)|, h.sizeStruct) && h.magic == FDT_MAGIC && h.version == 17 && h.lastComp <= 17
    ensures Held(h, m, base, root, t, l)
  {
    hide Occurs, Enc, Block, RsvBlock, OkItem;
  }

  /** A blob of version 17 with its blocks in order is well-formed. */
  lemma HeldWf(h: Header, m: bytes, base: nat, root: Item, t: bytes, l: seq<Rsv>)
    requires Held(h, m, base, root, t, l) && h.version == 17 && InOrder(h, |RsvBlock(l)|, h.sizeStruct)
    ensures Wf(h, m[base..base + h.totalsize], root, l) && StringsOf(h, m[base..base + h.totalsize]) == t
  {
    hide Enc, Block, RsvBlock, OkItem, Occurs;
    var n := h.totalsize;
    OccursSlice(m, base, n, h.offRsv, RsvBlock(l));
    OccursSlice(m, base, n, h.offStruct, Enc(Block(root)));
    OccursSlice(m, base, n, h.offStrings, t);
    StringsAt(h, m[base..base + n], t);
  }

  /** fdt_move */
  method Move(mem: array<byte>, fdt: nat, h: Header, mask: nat, buf: nat, bufsize: nat) returns (err: int)
    requires fdt + h.totalsize <= mem.Length && buf + bufsize <= mem.Length < INT32_MAX
    modifies mem
    ensures err == if ChecksBasic(mask) && RoProbeOf(h, mask) < 0 then RoProbeOf(h, mask)
                   else if h.totalsize > bufsize then -FDT_ERR_NOSPACE else 0
    ensures mem[..] == if err == 0 then Moved(old(mem[..]), buf, fdt, h.totalsize) else old(mem[..])
  {
    if ChecksBasic(mask) && RoProbeOf(h, mask) < 0 { return RoProbeOf(h, mask); }
    if h.totalsize > bufsize { return -FDT_ERR_NOSPACE; }
    MemMove(mem, buf, fdt, h.totalsize);
    return 0;
  }

  /** Packing at tmp and moving to buf touches nothing but the buffer, and brings the word at offset 28 along. */
  lemma Carried(h: Header, m: bytes, fdt: nat, tmp: nat, buf: nat, bufsize: nat, r: nat, s: nat)
    requires CanPack(h, |m|, fdt, tmp, buf, r, s) && tmp + HEADER_SIZE + r + s + h.sizeStrings <= buf + bufsize <= |m| && buf <= tmp
    ensures SameOutside(m, Repacked(h, m, fdt, tmp, buf, r, s), buf, bufsize)
    ensures U32(Repacked(h, m, fdt, tmp, buf, r, s), buf + 28) == U32(m, tmp + 28)
  {
    hide Moved, Occurs, SameOutside, U32;
    var x, y, z, w, n := fdt + h.offRsv, fdt + h.offStruct, fdt + h.offStrings, h.sizeStrings, HEADER_SIZE + r + s + h.sizeStrings;
    var m1 := Moved(m, tmp + HEADER_SIZE, x, r);
    var m2 := Moved(m1, tmp + HEADER_SIZE + r, y, s);
    var m3 := Moved(m2, tmp + HEADER_SIZE + r + s, z, w);
    SameRefl(m, buf, bufsize);
    SameMoved(m, m, buf, bufsize, tmp + HEADER_SIZE, x, r);
    SameMoved(m, m1, buf, bufsize, tmp + HEADER_SIZE + r, y, s);
    SameMoved(m, m2, buf, bufsize, tmp + HEADER_SIZE + r + s, z, w);
    SameMoved(m, m3, buf, bufsize, buf, tmp, n);
    WordBefore(m, tmp + HEADER_SIZE, x, r, tmp + 28);
    WordBefore(m1, tmp + HEADER_SIZE + r, y, s, tmp + 28);
    WordBefore(m2, tmp + HEADER_SIZE + r + s, z, w, tmp + 28);
    WordTo(m3, buf, tmp, n, 28);
  }

  lemma WordBefore(m: bytes, dst: nat, src: nat, n: nat, at: nat)
    requires dst + n <= |m| && src + n <= |m| && at + 4 <= dst
    ensures U32(Moved(m, dst, src, n), at) == U32(m, at)
  {
    hide Moved, U32, Occurs;
    var u := m[at..at + 4];
    WordHere(m, at, u);
    MovedBefore(m, dst, src, n, at, u);
    WordHere(Moved(m, dst, src, n), at, u);
  }

  lemma WordTo(m: bytes, dst: nat, src: nat, n: nat, k: nat)
    requires dst + n <= |m| && src + n <= |m| && k + 4 <= n
    ensures U32(Moved(m, dst, src, n), dst + k) == U32(m, src + k)
  {
    hide Moved, U32, Occurs;
    var u := m[src + k..src + k + 4];
    WordHere(m, src + k, u);
    MovedTo(m, dst, src, n, src + k, u);
    WordHere(Moved(m, dst, src, n), dst + k, u);
  }

  lemma WordHere(m: bytes, at: nat, u: bytes)
    requires at + 4 <= |m| && |u| == 4
    ensures u == m[at..at + 4] <==> Occurs(m, at, u)
    ensures Occurs(m, at, u) ==> U32(m, at) == U32(u, 0)
  {
    if Occurs(m, at, u) {
      OccursAt(m, at, u, 0);
      OccursAt(m, at, u, 1);
      OccursAt(m, at, u, 2);
      OccursAt(m, at, u, 3);
    }
  }

  /** Room for the blocks at tmp and at buf, and blocks that lie in the memory. */
  predicate CanPack(h: Header, size: nat, fdt: nat, tmp: nat, buf: nat, rsvSize: nat, structSize: nat) {
    && tmp + HEADER_SIZE + rsvSize + structSize + h.sizeStrings <= size && buf + HEADER_SIZE + rsvSize + structSize + h.sizeStrings <= size
    && fdt + h.totalsize <= size && h.offRsv + rsvSize <= h.totalsize
    && fdt + h.offStruct + structSize <= size && h.offStrings + h.sizeStrings <= h.totalsize
  }

  /** The memory once the blocks are packed at tmp and moved to buf. */
  function Repacked(h: Header, m: bytes, fdt: nat, tmp: nat, buf: nat, rsvSize: nat, structSize: nat): (r: bytes)
    requires CanPack(h, |m|, fdt, tmp, buf, rsvSize, structSize)
    ensures |r| == |m|
  {
    var a := tmp + HEADER_SIZE;
    var m1 := Moved(m, a, fdt + h.offRsv, rsvSize);
    var m2 := Moved(m1, a + rsvSize, fdt + h.offStruct, structSize);
    var m3 := Moved(m2, a + rsvSize + structSize, fdt + h.offStrings, h.sizeStrings);
    Moved(m3, buf, tmp, HEADER_SIZE + rsvSize + structSize + h.sizeStrings)
  }

  /** The right size: the buffer holds the tree. */
  lemma Reordered(h: Header, m: bytes, fdt: nat, tmp: nat, buf: nat, bufsize: nat, root: Item, t: bytes, l: seq<Rsv>, h': Header)
    requires Held(h, m, fdt, root, t, l) && h.sizeStruct == |Enc(Block(root))| && PackedSize(h, |RsvBlock(l)|) <= bufsize < INT32_MAX
    requires var n := PackedSize(h, |RsvBlock(l)|); tmp + n <= buf + bufsize <= |m| && buf <= tmp && (tmp + n <= fdt || fdt + h.totalsize <= tmp)
    requires h' == PackedHdr(h, |RsvBlock(l)|, h.sizeStruct).(magic := FDT_MAGIC, totalsize := bufsize, version := 17, lastComp := 16, bootCpu := h'.bootCpu)
    ensures CanPack(h, |m|, fdt, tmp, buf, |RsvBlock(l)|, h.sizeStruct)
    ensures Held(h', Repacked(h, m, fdt, tmp, buf, |RsvBlock(l)|, h.sizeStruct), buf, root, t, l)
  {
    hide Moved, Enc, Block, RsvBlock, OkItem, PackedAt, Held, Occurs;
    HeldFacts(h, m, fdt, root, t, l);
    var n := |RsvBlock(l)|;
    var m1 := Moved(m, tmp + HEADER_SIZE, fdt + h.offRsv, n);
    var m2 := Moved(m1, tmp + HEADER_SIZE + n, fdt + h.offStruct, h.sizeStruct);
    var m3 := Moved(m2, tmp + HEADER_SIZE + n + h.sizeStruct, fdt + h.offStrings, h.sizeStrings);
    Packed(h, m, fdt, tmp, root, t, l);
    PackedMoved(h, m3, tmp, buf, PackedSize(h, n), root, t, l);
    PackedElsewhere(h, h', Moved(m3, buf, tmp, PackedSize(h, n)), buf, root, t, l);
    PackedHeld(h', Moved(m3, buf, tmp, PackedSize(h, n)), buf, root, t, l);
  }

  /** fdt_packblocks_ to tmp, and its result to buf. */
  method PackTo(mem: array<byte>, fdt: nat, h: Header, tmp: nat, buf: nat, rsvSize: nat, structSize: nat) returns (h': Header)
    requires CanPack(h, mem.Length, fdt, tmp, buf, rsvSize, structSize) && mem.Length < INT32_MAX
    modifies mem
    ensures h' == PackedHdr(h, rsvSize, structSize)
    ensures mem[..] == Repacked(h, old(mem[..]), fdt, tmp, buf, rsvSize, structSize)
  {
    hide Moved;
    h' := PackBlocks(mem, fdt, h, tmp, rsvSize, structSize);
    MemMove(mem, buf, tmp, HEADER_SIZE + rsvSize + structSize + h.sizeStrings);
  }

  lemma SameRepacked(g: Header, h: Header, m: bytes, fdt: nat, tmp: nat, buf: nat, rsvSize: nat, structSize: nat)
    requires g == h.(sizeStruct := g.sizeStruct) && CanPack(h, |m|, fdt, tmp, buf, rsvSize, structSize)
    ensures CanPack(g, |m|, fdt, tmp, buf, rsvSize, structSize)
    ensures Repacked(g, m, fdt, tmp, buf, rsvSize, structSize) == Repacked(h, m, fdt, tmp, buf, rsvSize, structSize)
  {
    hide Moved;
  }

  lemma PackedElsewhere(h: Header, h': Header, m: bytes, base: nat, root: Item, t: bytes, l: seq<Rsv>)
    requires PackedAt(h, m, base, root, t, l) && h'.sizeStruct == h.sizeStruct
    ensures PackedAt(h', m, base, root, t, l)
  {
  }

  /** The blob holds the tree at index base, and is well-formed if its blocks are in order. */
  ghost predicate Arrived(h: Header, m: bytes, base: nat, root: Item, t: bytes, l: seq<Rsv>) {
    && Held(h, m, base, root, t, l)
    && (InOrder(h, |RsvBlock(l)|, h.sizeStruct) ==>
          Wf(h, m[base..base + h.totalsize], root, l) && StringsOf(h, m[base..base + h.totalsize]) == t)
  }

  /** Through tmp, a place apart from the blob, to the buffer; then the rest of the header. */
  method ReorderVia(mem: array<byte>, fdt: nat, h: Header, tmp: nat, buf: nat, bufsize: nat, rsvSize: nat, structSize: nat, readBack: nat,
                    ghost root: Item, ghost t: bytes, ghost l: seq<Rsv>) returns (h': Header)
    requires Held(h, mem[..], fdt, root, t, l) && rsvSize == |RsvBlock(l)| && mem.Length < INT32_MAX
    requires CanPack(h, mem.Length, fdt, tmp, buf, rsvSize, structSize) && buf <= tmp && buf + bufsize <= mem.Length
    requires var n := HEADER_SIZE + rsvSize + structSize + h.sizeStrings; tmp + n <= buf + bufsize && (tmp + n <= fdt || fdt + h.totalsize <= tmp)
    modifies mem
    ensures h' == Header(FDT_MAGIC, bufsize, HEADER_SIZE + rsvSize, HEADER_SIZE + rsvSize + structSize, HEADER_SIZE, 17, 16, h'.bootCpu, h.sizeStrings, structSize)
    ensures Apart(buf, HEADER_SIZE + rsvSize + structSize + h.sizeStrings, fdt + 28, 4) ==> h'.bootCpu == h.bootCpu
    ensures buf == fdt && tmp == fdt + h.totalsize ==> tmp + 32 <= mem.Length && h'.bootCpu == U32(old(mem[..]), tmp + 28)
    ensures SameOutside(old(mem[..]), mem[..], buf, bufsize)
    ensures structSize == |Enc(Block(root))| ==> Arrived(h', mem[..], buf, root, t, l)
  {
    hide Enc, Block, RsvBlock, OkItem, Held, SameOutside, Occurs, U32, OkRsv, Wf, StringsOf, Repacked, HasRsv;
    ghost var m, g := mem[..], h.(sizeStruct := structSize);
    Carried(h, m, fdt, tmp, buf, bufsize, rsvSize, structSize);
    h' := PackTo(mem, fdt, h, tmp, buf, rsvSize, structSize);
    h' := h'.(magic := FDT_MAGIC);
    h' := h'.(totalsize := bufsize);
    h' := h'.(version := 17);
    h' := h'.(lastComp := 16);
    var at, newsize := fdt + 28, HEADER_SIZE + rsvSize + structSize + h.sizeStrings;
    HeldFacts(h, m, fdt, root, t, l);
    var cpu := if Apart(buf, newsize, at, 4) then h.bootCpu else if at == buf + 28 || buf + HEADER_SIZE <= at then Load(mem, at) else readBack;
    h' := h'.(bootCpu := cpu);
    if structSize == |Enc(Block(root))| {
      HeldSized(h, m, fdt, root, t, l);
      Reordered(g, m, fdt, tmp, buf, bufsize, root, t, l, h');
      SameRepacked(g, h, m, fdt, tmp, buf, rsvSize, structSize);
      HeldWf(h', mem[..], buf, root, t, l);
    }
  }

  /** The part of fdt_open_into that reorders. */
  method Reorder(mem: array<byte>, fdt: nat, h: Header, mask: nat, buf: nat, bufsize: nat, rsvSize: nat, structSize: nat, readBack: nat,
                 ghost root: Item, ghost t: bytes, ghost l: seq<Rsv>) returns (err: int, h': Header)
    requires Held(h, mem[..], fdt, root, t, l) && buf + bufsize <= mem.Length < INT32_MAX
    requires rsvSize == |RsvBlock(l)| && Misordered(h, mask, rsvSize, structSize)
    requires structSize == |Enc(Block(root))| || HEADER_SIZE + rsvSize + structSize + h.sizeStrings < INT32_MAX
    modifies mem
    ensures err == OpenError(h, mask, rsvSize, structSize, fdt, buf, bufsize, mem.Length)
    ensures err != 0 ==> mem[..] == old(mem[..]) && h' == h
    ensures err == 0 ==> h' == OpenedHdr(h, mask, rsvSize, structSize, bufsize, h'.bootCpu)
    ensures err == 0 && Apart(buf, PackedSize(h.(sizeStruct := structSize), rsvSize), fdt + 28, 4) ==> h'.bootCpu == h.bootCpu
    ensures err == 0 && buf == fdt ==> fdt + h.totalsize + 32 <= mem.Length && h'.bootCpu == U32(old(mem[..]), fdt + h.totalsize + 28)
    ensures SameOutside(old(mem[..]), mem[..], buf, bufsize)
    ensures err == 0 ==> InOrder(h', rsvSize, structSize)
    ensures err == 0 && structSize == |Enc(Block(root))| ==> Arrived(h', mem[..], buf, root, t, l)
  {
    hide Enc, Block, RsvBlock, Held, Arrived, SameOutside, U32, ChecksBasic, HasRsv;
    SameRefl(mem[..], buf, bufsize);
    HeldFacts(h, mem[..], fdt, root, t, l);
    var fdtend := fdt + h.totalsize;
    var newsize := HEADER_SIZE + rsvSize + structSize + h.sizeStrings;
    if bufsize < newsize { return -FDT_ERR_NOSPACE, h; }
    var tmp := buf;
    if tmp + newsize > fdt && tmp < fdtend {
      tmp := fdtend;
      if tmp + newsize > buf + bufsize { return -FDT_ERR_NOSPACE, h; }
    }
    if fdt + h.offStruct + structSize > mem.Length { return -STRAY, h; }
    h' := ReorderVia(mem, fdt, h, tmp, buf, bufsize, rsvSize, structSize, readBack, root, t, l);
    return 0, h';
  }

  lemma HeldSized(h: Header, m: bytes, base: nat, root: Item, t: bytes, l: seq<Rsv>)
    requires Held(h, m, base, root, t, l)
    ensures Held(h.(sizeStruct := |Enc(Block(root))|), m, base, root, t, l)
  {
    hide Enc, Block, RsvBlock, OkItem, Occurs, OkRsv;
  }

  /** The part of fdt_open_into that copies the blob as it is. */
  method Relabel(mem: array<byte>, fdt: nat, h: Header, mask: nat, buf: nat, bufsize: nat, rsvSize: nat, structSize: nat,
                 ghost root: Item, ghost t: bytes, ghost l: seq<Rsv>) returns (err: int, h': Header)
    requires Held(h, mem[..], fdt, root, t, l) && buf + bufsize <= mem.Length < INT32_MAX && rsvSize == |RsvBlock(l)|
    requires !Misordered(h, mask, rsvSize, structSize)
    modifies mem
    ensures err == OpenError(h, mask, rsvSize, structSize, fdt, buf, bufsize, mem.Length)
    ensures err != 0 ==> mem[..] == old(mem[..]) && h' == h
    ensures err == 0 ==> h' == OpenedHdr(h, mask, rsvSize, structSize, bufsize, h'.bootCpu) && h'.bootCpu == h.bootCpu
    ensures SameOutside(old(mem[..]), mem[..], buf, bufsize)
    ensures err == 0 && structSize == |Enc(Block(root))| && PastHeader(h, HEADER_SIZE) ==> Arrived(h', mem[..], buf, root, t, l)
    ensures err == 0 ==> (InOrder(h', rsvSize, structSize) <==> InOrder(h, rsvSize, structSize))
  {
    hide Moved, Enc, Block, RsvBlock, OkItem, Wf, StringsOf, Held, Occurs, SameOutside, ChecksBasic, ChecksVersion, OkRsv;
    ghost var m := mem[..];
    HeldFacts(h, m, fdt, root, t, l);
    SameRefl(m, buf, bufsize);
    err := Move(mem, fdt, h, mask, buf, bufsize);
    if err != 0 { return err, h; }
    SameMoved(m, m, buf, bufsize, buf, fdt, h.totalsize);
    h' := h.(version := 17);
    h' := h'.(sizeStruct := structSize);
    h' := h'.(totalsize := bufsize);
    if structSize == |Enc(Block(root))| && PastHeader(h, HEADER_SIZE) {
      WholeMoved(h, m, fdt, buf, bufsize, root, t, l);
      if InOrder(h', rsvSize, structSize) { HeldWf(h', mem[..], buf, root, t, l); }
    }
    return 0, h';
  }

  /**
    fdt_open_into: tree, strings and reservations arrive in the buffer, and nothing outside it changes.
    The boot CPU number of a reordered blob is read at the place of the old header after the new
    blob is complete; readBack is that word where another word of the new header lies there.
   */
  method OpenInto(mem: array<byte>, fdt: nat, h: Header, mask: nat, buf: nat, bufsize: nat, readBack: nat,
                  ghost root: Item, ghost t: bytes, ghost l: seq<Rsv>) returns (err: int, h': Header)
    requires Held(h, mem[..], fdt, root, t, l) && buf + bufsize <= mem.Length < INT32_MAX
    requires var n, k := |Enc(Block(root))|, |RsvBlock(l)|; SizeRead(h, mask, n) == n || HEADER_SIZE + k + h.sizeStruct + h.sizeStrings < INT32_MAX
    modifies mem
    ensures var k, s := |RsvBlock(l)|, SizeRead(h, mask, |Enc(Block(root))|);
      err == OpenError(h, mask, k, s, fdt, buf, bufsize, mem.Length) && (err == 0 ==> h' == OpenedHdr(h, mask, k, s, bufsize, h'.bootCpu))
    ensures err != 0 ==> mem[..] == old(mem[..]) && h' == h
    ensures SameOutside(old(mem[..]), mem[..], buf, bufsize)
    ensures var k, n := |RsvBlock(l)|, |Enc(Block(root))|;
      err == 0 && SizeRead(h, mask, n) == n && (ChecksBasic(mask) || PastHeader(h, HEADER_SIZE)) ==>
        Arrived(h', mem[..], buf, root, t, l) && (InOrder(h', k, n) <==> ChecksBasic(mask) || InOrder(h, k, n))
    ensures var k, n := |RsvBlock(l)|, |Enc(Block(root))|;
      err == 0 && Misordered(h, mask, k, SizeRead(h, mask, n)) ==>
        && (Apart(buf, PackedSize(h.(sizeStruct := SizeRead(h, mask, n)), k), fdt + 28, 4) ==> h'.bootCpu == h.bootCpu)
        && (buf == fdt ==> fdt + h.totalsize + 32 <= mem.Length && h'.bootCpu == U32(old(mem[..]), fdt + h.totalsize + 28))
  {
    hide Moved, Enc, Block, RsvBlock, OkItem, Held, Arrived, OpenError, OpenedHdr, ScannableAt, Occurs, SameOutside, U32, ChecksBasic, ChecksVersion, RoProbeOf, OkRsv;
    ghost var m := mem[..];
    HeldFacts(h, m, fdt, root, t, l);
    HeldScannable(h, m, fdt, mask, root, t, l);
    SameRefl(m, buf, bufsize);
    if ChecksBasic(mask) && RoProbeOf(h, mask) < 0 { return RoProbeOf(h, mask), h; }
    var num := NumMemRsv(mem, fdt, h, ChecksExtra(mask), l);
    var rsvSize := (num + 1) * 16;
    var structSize := StructSize(mem, fdt, h, mask, root);
    if structSize < 0 { return structSize, h; }
    if !Misordered(h, mask, rsvSize, structSize) {
      err, h' := Relabel(mem, fdt, h, mask, buf, bufsize, rsvSize, structSize, root, t, l);
    } else {
      err, h' := Reorder(mem, fdt, h, mask, buf, bufsize, rsvSize, structSize, readBack, root, t, l);
    }
  }
}
