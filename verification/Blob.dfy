/**
  A flattened device tree: the ten header words of struct fdt_header and the buffer they describe.
  Layout and content are predicates on values (header, bytes), so that lemmas need no heap.
 */
module Blob {
  import opened Bytes
  import opened Tokens
  import opened Tree
  import opened Meaning

  const FDT_ERR_NOTFOUND: int := 1
  const FDT_ERR_EXISTS: int := 2
  const FDT_ERR_NOSPACE: int := 3
  const FDT_ERR_BADOFFSET: int := 4
  const FDT_ERR_BADSTATE: int := 7
  const FDT_ERR_TRUNCATED: int := 8
  const FDT_ERR_BADMAGIC: int := 9
  const FDT_ERR_BADVERSION: int := 10
  const FDT_ERR_BADSTRUCTURE: int := 11
  const FDT_ERR_BADLAYOUT: int := 12
  const FDT_ERR_INTERNAL: int := 13

  /** Stands for a store outside the bytes meant for it.  The code goes on after it; the model ends there. */
  const STRAY: int := 1000

  const FDT_MAGIC: nat := 0xd00d_feed
  const FDT_SW_MAGIC: nat := 0x2ff2_0112
  const HEADER_SIZE: nat := 40
  const INT32_MAX: nat := 0x7fff_ffff
  const FDT_FIRST_SUPPORTED_VERSION: nat := 2
  const FDT_LAST_SUPPORTED_VERSION: nat := 17

  datatype Header = Header(magic: nat, totalsize: nat, offStruct: nat, offStrings: nat, offRsv: nat, version: nat,
                           lastComp: nat, bootCpu: nat, sizeStrings: nat, sizeStruct: nat)

  /** A memory reservation entry. */
  datatype Rsv = Rsv(address: nat, size: nat)

  function BE64(x: nat): (r: bytes)
    ensures |r| == 8
  {
    BE32(x / TWO32 % TWO32) + BE32(x % TWO32)
  }

  function EncRsv(l: seq<Rsv>): (r: bytes)
    ensures |r| == 16 * |l|
  {
    if l == [] then [] else BE64(l[0].address) + BE64(l[0].size) + EncRsv(l[1..])
  }

  /** A size of 0 is the terminator, so no listed entry has it. */
  predicate OkRsv(l: seq<Rsv>) {
    forall i :: 0 <= i < |l| ==> l[i].address < TWO64 && 0 < l[i].size < TWO64
  }

  /** The list with its terminator. */
  function RsvBlock(l: seq<Rsv>): (r: bytes)
    ensures |r| == 16 * (|l| + 1)
  {
    EncRsv(l + [Rsv(0, 0)])
  }

  // ------------------------------------------------------------------ layout of a complete blob

  predicate Laid(h: Header, m: bytes) {
    && HEADER_SIZE <= h.offRsv
    && h.offRsv + 16 <= h.offStruct
    && h.offStruct + h.sizeStruct <= h.offStrings
    && h.offStrings + h.sizeStrings <= h.totalsize <= |m|
    && h.totalsize < INT32_MAX
  }

  function DataSize(h: Header): nat {
    h.offStrings + h.sizeStrings
  }

  /** The contents have become n bytes longer, in a blob of the same total size. */
  predicate GrewBy(h: Header, g: Header, n: int) {
    g.totalsize == h.totalsize && DataSize(g) == DataSize(h) + n
  }

  /** The strings block; empty if the header does not fit the buffer. */
  function StringsOf(h: Header, m: bytes): (r: bytes) {
    if h.offStrings + h.sizeStrings <= |m| then m[h.offStrings..h.offStrings + h.sizeStrings] else []
  }

  lemma StringsAt(h: Header, m: bytes, t: bytes)
    requires h.offStrings + h.sizeStrings <= |m|
    ensures StringsOf(h, m) == t <==> |t| == h.sizeStrings && Occurs(m, h.offStrings, t)
  {
  }

  /** The header and bytes m hold tree `root` and reservations l. */
  ghost predicate Wf(h: Header, m: bytes, root: Item, l: seq<Rsv>) {
    && Laid(h, m)
    && h.magic == FDT_MAGIC && h.version == 17 && h.lastComp <= 17
    && h.offRsv + 16 * (|l| + 1) <= h.offStruct
    && OkRsv(l) && Occurs(m, h.offRsv, RsvBlock(l))
    && root.Node? && OkItem(StringsOf(h, m), root)
    && h.sizeStruct == |Enc(Block(root))| && Occurs(m, h.offStruct, Enc(Block(root)))
  }

  lemma WfLaid(h: Header, m: bytes, root: Item, l: seq<Rsv>)
    requires Wf(h, m, root, l)
    ensures Laid(h, m) && h.magic == FDT_MAGIC && h.version == 17 && h.lastComp <= 17 && root.Node? && OkItem(StringsOf(h, m), root)
    ensures h.offRsv + |RsvBlock(l)| <= h.offStruct && Occurs(m, h.offRsv, RsvBlock(l))
  {
  }

  /** FDT_ASSUME_MASK: which checks are compiled out. */
  predicate ChecksBasic(mask: nat) { mask % 2 == 0 }
  predicate ChecksVersion(mask: nat) { mask / 2 % 2 == 0 }
  predicate ChecksExtra(mask: nat) { mask / 4 % 2 == 0 }

  class Fdt {
    const mem: array<byte>
    const mask: nat
    var hdr: Header
    ghost var root: Item
    ghost var rsv: seq<Rsv>

    predicate ChkBasic() { ChecksBasic(mask) }
    predicate ChkVersion() { ChecksVersion(mask) }
    predicate ChkExtra() { ChecksExtra(mask) }

    ghost predicate Valid()
      reads this, mem
    {
      Wf(hdr, mem[..], root, rsv)
    }

    /** The strings block. */
    ghost function Strings(): bytes
      reads this, mem
    {
      StringsOf(hdr, mem[..])
    }

    /** The tree the blob means. */
    ghost function Meaning(): DT
      requires Valid()
      reads this, mem
    {
      Mean(Strings(), root)
    }

    constructor (buf: array<byte>, assumeMask: nat, h: Header, ghost r: Item, ghost l: seq<Rsv>)
      ensures mem == buf && mask == assumeMask && hdr == h && root == r && rsv == l
    {
      mem, mask, hdr, root, rsv := buf, assumeMask, h, r, l;
    }
  }

  /** fdt32_to_cpu of a word in the buffer. */
  function Load(mem: array<byte>, at: nat): (r: nat)
    requires at + 4 <= mem.Length
    reads mem
    ensures r == U32(mem[..], at)
  {
    0x100_0000 * (mem[at] as int) + 0x1_0000 * (mem[at + 1] as int) + 0x100 * (mem[at + 2] as int) + mem[at + 3]
  }

  // ------------------------------------------------------------------ decoding is unique

  /** What Flat(it) starts with. */
  lemma FlatHead(it: Item)
    ensures Flat(it) != []
    ensures Flat(it)[0] == (match it case Nop => TNop case Prop(o, v, p) => TProp(o, v, p) case Node(n, p, _) => TBegin(n, p))
  {
  }

  lemma Reassoc<X>(a: seq<X>, b: seq<X>, c: seq<X>, d: seq<X>)
    ensures (a + b) + c + d == a + (b + c + d)
  {
  }

  lemma CloseEmpty(b: seq<Item>, x: seq<Tok>, y: seq<Tok>)
    requires [TEnd] + x == FlatS(b) + [TEnd] + y
    ensures b == [] && x == y
  {
    var l := FlatS(b) + [TEnd] + y;
    assert l[0] == TEnd;
    if b != [] {
      FlatHead(b[0]);
      Reassoc(Flat(b[0]), FlatS(b[1..]), [TEnd], y);
      assert false;
    }
    assert FlatS(b) + [TEnd] == [TEnd];
    CatInj([TEnd], x, [TEnd], y);
  }

  /** A list of items followed by an END_NODE can be read back in one way only. */
  lemma {:induction false} FlatSUnique(a: seq<Item>, x: seq<Tok>, b: seq<Item>, y: seq<Tok>)
    requires FlatS(a) + [TEnd] + x == FlatS(b) + [TEnd] + y
    ensures a == b && x == y
    decreases a, 0
  {
    if a == [] {
      assert FlatS(a) + [TEnd] == [TEnd];
      CloseEmpty(b, x, y);
    } else if b == [] {
      assert FlatS(b) + [TEnd] == [TEnd];
      CloseEmpty(a, y, x);
    } else {
      Reassoc(Flat(a[0]), FlatS(a[1..]), [TEnd], x);
      Reassoc(Flat(b[0]), FlatS(b[1..]), [TEnd], y);
      FlatUnique(a[0], FlatS(a[1..]) + [TEnd] + x, b[0], FlatS(b[1..]) + [TEnd] + y);
      FlatSUnique(a[1..], x, b[1..], y);
      assert a == [a[0]] + a[1..] && b == [b[0]] + b[1..];
    }
  }

  lemma {:induction false} FlatUnique(a: Item, x: seq<Tok>, b: Item, y: seq<Tok>)
    requires Flat(a) + x == Flat(b) + y
    ensures a == b && x == y
    decreases a, 1
  {
    FlatHead(a);
    FlatHead(b);
    assert Flat(a)[0] == (Flat(a) + x)[0] == (Flat(b) + y)[0] == Flat(b)[0];
    match a
    case Node(n, p, its) =>
      Reassoc([TBegin(n, p)], FlatS(its), [TEnd], x);
      Reassoc([TBegin(n, p)], FlatS(b.items), [TEnd], y);
      CatInj([TBegin(n, p)], FlatS(its) + [TEnd] + x, [TBegin(n, p)], FlatS(b.items) + [TEnd] + y);
      FlatSUnique(its, x, b.items, y);
    case _ =>
      CatInj(Flat(a), x, Flat(b), y);
  }

  /** The bytes of a structure block determine the tree: Fdt.root is a reading of the buffer, not a choice. */
  lemma TreeUnique(h: Header, m: bytes, a: Item, b: Item, k: seq<Rsv>, l: seq<Rsv>)
    requires Wf(h, m, a, k) && Wf(h, m, b, l)
    ensures a == b
  {
    OkFlat(StringsOf(h, m), a);
    OkFlat(StringsOf(h, m), b);
    EncUnique(Block(a), Block(b));
    FlatUnique(a, [TFin], b, [TFin]);
  }
}
