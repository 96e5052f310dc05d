/**
  The memory reservation list: fdt_num_mem_rsv and fdt_get_mem_rsv of fdt_ro.c, fdt_add_mem_rsv and
  fdt_del_mem_rsv of fdt_rw.c, and what fdt_support.c does with them.
 */
module Reserve {
  import opened Bytes
  import opened Tokens
  import opened Tree
  import opened Meaning
  import opened Blob
  import opened Scan
  import opened Walk
  import opened Splicing

  // ------------------------------------------------------------------ the list in the buffer

  lemma {:induction false} EncRsvCat(a: seq<Rsv>, b: seq<Rsv>)
    ensures EncRsv(a + b) == EncRsv(a) + EncRsv(b)
  {
    hide BE64;
    if a == [] {
      assert a + b == b;
    } else {
      EncRsvCat(a[1..], b);
      assert (a + b)[1..] == a[1..] + b;
      Assoc(BE64(a[0].address) + BE64(a[0].size), EncRsv(a[1..]), EncRsv(b));
    }
  }

  /** fdt64_to_cpu of a doubleword in the buffer. */
  function Load64(mem: array<byte>, at: nat): (r: nat)
    requires at + 8 <= mem.Length
    reads mem
  {
    TWO32 * Load(mem, at) + Load(mem, at + 4)
  }

  lemma BE64At(mem: array<byte>, at: nat, x: nat)
    requires x < TWO64 && Occurs(mem[..], at, BE64(x))
    ensures at + 8 <= mem.Length && Load64(mem, at) == x
  {
    hide BE32;
    OccursCat(mem[..], at, BE32(x / TWO32 % TWO32), BE32(x % TWO32));
    U32Of(mem[..], at, x / TWO32 % TWO32);
    U32Of(mem[..], at + 4, x % TWO32);
  }

  lemma {:induction false} EntryIn(m: bytes, at: nat, l: seq<Rsv>, i: nat)
    requires i < |l| && Occurs(m, at, EncRsv(l))
    ensures Occurs(m, at + 16 * i, BE64(l[i].address)) && Occurs(m, at + 16 * i + 8, BE64(l[i].size))
    decreases i
  {
    hide BE64, Occurs;
    OccursCat(m, at, BE64(l[0].address) + BE64(l[0].size), EncRsv(l[1..]));
    if i > 0 {
      EntryIn(m, at + 16, l[1..], i - 1);
    } else {
      OccursCat(m, at, BE64(l[0].address), BE64(l[0].size));
    }
  }

  /** Entry i of a list stored at index at. */
  lemma EntryAt(mem: array<byte>, at: nat, l: seq<Rsv>, i: nat)
    requires i < |l| && Occurs(mem[..], at, EncRsv(l)) && l[i].address < TWO64 && l[i].size < TWO64
    ensures at + 16 * i + 16 <= mem.Length
    ensures Load64(mem, at + 16 * i) == l[i].address && Load64(mem, at + 16 * i + 8) == l[i].size
  {
    hide BE64, Load64, EncRsv, Occurs, BE32;
    EntryIn(mem[..], at, l, i);
    BE64At(mem, at + 16 * i, l[i].address);
    BE64At(mem, at + 16 * i + 8, l[i].size);
  }

  lemma BE64Inj(x: nat, y: nat)
    requires x < TWO64 && y < TWO64 && BE64(x) == BE64(y)
    ensures x == y
  {
    hide BE32;
    CatInj(BE32(x / TWO32 % TWO32), BE32(x % TWO32), BE32(y / TWO32 % TWO32), BE32(y % TWO32));
    BE32RoundTrip(x / TWO32 % TWO32);
    BE32RoundTrip(y / TWO32 % TWO32);
    BE32RoundTrip(x % TWO32);
    BE32RoundTrip(y % TWO32);
  }

  /** Two lists in the same bytes, each with its terminator, are the same list. */
  lemma {:induction false} RsvUnique(m: bytes, at: nat, k: seq<Rsv>, l: seq<Rsv>)
    requires OkRsv(k) && OkRsv(l) && Occurs(m, at, RsvBlock(k)) && Occurs(m, at, RsvBlock(l))
    ensures k == l
    decreases |k|
  {
    hide BE64, EncRsv, Occurs, BE32;
    FirstSame(m, at, k, l);
    if k != [] && l != [] {
      RsvUnique(m, at + 16, k[1..], l[1..]);
      assert k == [k[0]] + k[1..] && l == [l[0]] + l[1..];
    }
  }

  lemma FirstEntry(m: bytes, at: nat, l: seq<Rsv>)
    requires Occurs(m, at, RsvBlock(l))
    ensures var e := (l + [Rsv(0, 0)])[0]; Occurs(m, at, BE64(e.address) + BE64(e.size))
    ensures l != [] ==> Occurs(m, at + 16, RsvBlock(l[1..]))
  {
    hide BE64, Occurs;
    var k := l + [Rsv(0, 0)];
    assert l != [] ==> k[1..] == l[1..] + [Rsv(0, 0)];
    OccursCat(m, at, BE64(k[0].address) + BE64(k[0].size), EncRsv(k[1..]));
  }

  lemma FirstSame(m: bytes, at: nat, k: seq<Rsv>, l: seq<Rsv>)
    requires OkRsv(k) && OkRsv(l) && Occurs(m, at, RsvBlock(k)) && Occurs(m, at, RsvBlock(l))
    ensures (k == [] <==> l == []) && (k != [] && l != [] ==> k[0] == l[0] && Occurs(m, at + 16, RsvBlock(k[1..])) && Occurs(m, at + 16, RsvBlock(l[1..])))
  {
    hide BE64, EncRsv, BE32, RsvBlock;
    FirstEntry(m, at, k);
    FirstEntry(m, at, l);
    var a, b := (k + [Rsv(0, 0)])[0], (l + [Rsv(0, 0)])[0];
    assert BE64(a.address) + BE64(a.size) == m[at..at + 16] == BE64(b.address) + BE64(b.size);
    CatInj(BE64(a.address), BE64(a.size), BE64(b.address), BE64(b.size));
    BE64Inj(a.address, b.address);
    BE64Inj(a.size, b.size);
  }

  /** The blob at index base of the memory has reservations l, wherever its blocks are. */
  ghost predicate HasRsv(h: Header, m: bytes, base: nat, l: seq<Rsv>) {
    && h.offRsv + |RsvBlock(l)| <= h.totalsize < INT32_MAX && base + h.totalsize <= |m|
    && OkRsv(l) && Occurs(m, base + h.offRsv, RsvBlock(l))
  }

  /** fdt_mem_rsv: the index of entry n, or NULL; C compares in unsigned arithmetic. */
  function MemRsv(h: Header, base: nat, chkExtra: bool, n: nat): Ptr {
    var absoffset := h.offRsv + 16 * n;
    if chkExtra && (absoffset < h.offRsv || absoffset > (h.totalsize - 16) % TWO64) then Null
    else Ptr.Ptr(base + absoffset)
  }

  lemma WfRsv(h: Header, m: bytes, root: Item, l: seq<Rsv>)
    requires Wf(h, m, root, l)
    ensures HasRsv(h, m, 0, l) && Laid(h, m) && h.magic == FDT_MAGIC && h.version == 17 && h.lastComp <= 17
    ensures h.offRsv + 16 * (|l| + 1) <= h.offStruct
  {
  }

  /** fdt_num_mem_rsv */
  method NumMemRsv(mem: array<byte>, base: nat, h: Header, chkExtra: bool, ghost l: seq<Rsv>) returns (r: int)
    requires HasRsv(h, mem[..], base, l)
    ensures r == |l|
  {
    hide EncRsv, Load64;
    var i := 0;
    ghost var k := l + [Rsv(0, 0)];
    EntryAt(mem, base + h.offRsv, k, 0);
    var re := MemRsv(h, base, chkExtra, i);
    while re.Ptr?
      invariant i <= |l| && re == Ptr.Ptr(base + h.offRsv + 16 * i)
      invariant re.at + 16 <= mem.Length && Load64(mem, re.at + 8) == k[i].size
      decreases |l| - i
    {
      if Load64(mem, re.at + 8) == 0 { return i; }
      assert k[i] == l[i];
      i := i + 1;
      EntryAt(mem, base + h.offRsv, k, i);
      re := MemRsv(h, base, chkExtra, i);
    }
    return -FDT_ERR_TRUNCATED;
  }

  lemma EntryOk(l: seq<Rsv>, n: nat)
    requires OkRsv(l) && n <= |l|
    ensures var e := (l + [Rsv(0, 0)])[n]; e.address < TWO64 && e.size < TWO64
  {
  }

  /** fdt_get_mem_rsv, up to the terminator. */
  method GetMemRsv(f: Fdt, n: nat) returns (err: int, address: nat, size: nat)
    requires f.Valid() && n <= |f.rsv|
    ensures err == 0 && Rsv(address, size) == (f.rsv + [Rsv(0, 0)])[n]
  {
    hide EncRsv, Load64, Wf, OkRsv, Occurs;
    ghost var k := f.rsv + [Rsv(0, 0)];
    WfRsv(f.hdr, f.mem[..], f.root, f.rsv);
    EntryOk(f.rsv, n);
    address, size := 0, 0;
    err := RoProbe(f);
    if err < 0 { return; }
    var re := MemRsv(f.hdr, 0, f.ChkExtra(), n);
    if f.ChkExtra() && re.Null? {
      err := -FDT_ERR_BADOFFSET;
      return;
    }
    EntryAt(f.mem, f.hdr.offRsv, k, n);
    return 0, Load64(f.mem, re.at), Load64(f.mem, re.at + 8);
  }

  // ------------------------------------------------------------------ splicing the list

  /** The header once the list has changed by d bytes. */
  function RsvGrown(h: Header, d: int): Header
    requires h.offStruct + d >= 0 && h.offStrings + d >= 0
  {
    h.(offStruct := h.offStruct + d, offStrings := h.offStrings + d)
  }

  /** The reservations are a, then n entries still to be filled in, then c; all the rest is in place. */
  ghost predicate RsvOpen(h: Header, m: bytes, root: Item, t: bytes, a: seq<Rsv>, n: nat, c: seq<Rsv>) {
    && Laid(h, m) && h.magic == FDT_MAGIC && h.version == 17 && h.lastComp <= 17
    && h.offRsv + 16 * |a| + 16 * n + |RsvBlock(c)| <= h.offStruct
    && OkRsv(a) && OkRsv(c)
    && Occurs(m, h.offRsv, EncRsv(a)) && Occurs(m, h.offRsv + 16 * |a| + 16 * n, RsvBlock(c))
    && root.Node? && OkItem(t, root) && StringsOf(h, m) == t
    && h.sizeStruct == |Enc(Block(root))| && Occurs(m, h.offStruct, Enc(Block(root)))
  }

  /** fdt_splice_mem_rsv_ */
  method SpliceMemRsv(f: Fdt, n: nat, oldn: nat, newn: nat) returns (err: int)
    requires f.Valid() && n + oldn <= |f.rsv| && newn < 2
    modifies f`hdr, f.mem
    ensures err == if old(DataSize(f.hdr)) - 16 * oldn + 16 * newn > f.hdr.totalsize then -FDT_ERR_NOSPACE else 0
    ensures err != 0 ==> f.hdr == old(f.hdr) && f.mem[..] == old(f.mem[..])
    ensures err == 0 ==> f.hdr == RsvGrown(old(f.hdr), 16 * newn - 16 * oldn)
    ensures err == 0 ==> RsvOpen(f.hdr, f.mem[..], f.root, old(f.Strings()), f.rsv[..n], newn, f.rsv[n + oldn..])
  {
    hide Moved, Enc, Block, EncRsv, RsvBlock, OkItem, StringsOf, Wf, RsvOpen;
    ghost var h, m := f.hdr, f.mem[..];
    WfRsv(h, m, f.root, f.rsv);
    err := Splice(f, f.hdr.offRsv + 16 * n, 16 * oldn, 16 * newn);
    if err != 0 { return; }
    f.hdr := f.hdr.(offStruct := f.hdr.offStruct + 16 * (newn - oldn));
    f.hdr := f.hdr.(offStrings := f.hdr.offStrings + 16 * (newn - oldn));
    RsvMoved(h, m, f.root, f.rsv, n, oldn, newn);
  }

  lemma RsvMoved(h: Header, m: bytes, root: Item, l: seq<Rsv>, n: nat, oldn: nat, newn: nat)
    requires Wf(h, m, root, l) && n + oldn <= |l| && DataSize(h) - 16 * oldn + 16 * newn <= h.totalsize
    ensures h.offStruct >= 16 * oldn
    ensures var p := h.offRsv + 16 * n;
      RsvOpen(RsvGrown(h, 16 * newn - 16 * oldn), Moved(m, p + 16 * newn, p + 16 * oldn, DataSize(h) - p - 16 * oldn),
              root, StringsOf(h, m), l[..n], newn, l[n + oldn..])
  {
    hide Moved, Enc, Block, EncRsv, OkItem, StringsOf, Occurs;
    var p, t := h.offRsv + 16 * n, StringsOf(h, m);
    var k := DataSize(h) - p - 16 * oldn;
    var h', m' := RsvGrown(h, 16 * newn - 16 * oldn), Moved(m, p + 16 * newn, p + 16 * oldn, k);
    var a, b, c := l[..n], l[n..n + oldn], l[n + oldn..];
    RsvParts(m, h.offRsv, l, n, oldn);
    MovedBefore(m, p + 16 * newn, p + 16 * oldn, k, h.offRsv, EncRsv(a));
    MovedTo(m, p + 16 * newn, p + 16 * oldn, k, p + 16 * oldn, RsvBlock(c));
    MovedTo(m, p + 16 * newn, p + 16 * oldn, k, h.offStruct, Enc(Block(root)));
    StringsAt(h, m, t);
    MovedTo(m, p + 16 * newn, p + 16 * oldn, k, h.offStrings, t);
    StringsAt(h', m', t);
  }

  lemma RsvParts(m: bytes, at: nat, l: seq<Rsv>, n: nat, k: nat)
    requires n + k <= |l|
    ensures Occurs(m, at, RsvBlock(l)) <==> Occurs(m, at, EncRsv(l[..n])) && Occurs(m, at + 16 * n, EncRsv(l[n..n + k])) &&
                                            Occurs(m, at + 16 * (n + k), RsvBlock(l[n + k..]))
  {
    hide EncRsv, Occurs;
    var z := [Rsv(0, 0)];
    assert l + z == l[..n] + (l[n..n + k] + (l[n + k..] + z));
    EncRsvCat(l[..n], l[n..n + k] + (l[n + k..] + z));
    EncRsvCat(l[n..n + k], l[n + k..] + z);
    OccursCat(m, at, EncRsv(l[..n]), EncRsv(l[n..n + k] + (l[n + k..] + z)));
    OccursCat(m, at + 16 * n, EncRsv(l[n..n + k]), EncRsv(l[n + k..] + z));
  }

  /** The entries filled in, the list is complete. */
  lemma RsvClose(h: Header, m: bytes, root: Item, t: bytes, a: seq<Rsv>, ins: seq<Rsv>, c: seq<Rsv>)
    requires RsvOpen(h, m, root, t, a, |ins|, c) && OkRsv(ins) && Occurs(m, h.offRsv + 16 * |a|, EncRsv(ins))
    ensures Wf(h, m, root, a + ins + c)
  {
    hide EncRsv, Enc, Block, Occurs, StringsOf, OkItem;
    var l := a + ins + c;
    assert l[..|a|] == a && l[|a|..|a| + |ins|] == ins && l[|a| + |ins|..] == c;
    RsvParts(m, h.offRsv, l, |a|, |ins|);
  }

  lemma EntryPut(h: Header, m: bytes, root: Item, t: bytes, a: seq<Rsv>, r: Rsv, c: seq<Rsv>)
    requires RsvOpen(h, m, root, t, a, 1, c) && OkRsv([r])
    ensures h.offRsv + 16 * |a| + 16 <= |m|
    ensures var m' := Written(m, h.offRsv + 16 * |a|, BE64(r.address) + BE64(r.size));
      Wf(h, m', root, a + [r] + c) && StringsOf(h, m') == t
  {
    hide EncRsv, BE64, Enc, Block, Occurs, StringsOf, OkItem, Written;
    var at, v := h.offRsv + 16 * |a|, BE64(r.address) + BE64(r.size);
    var m' := Written(m, at, v);
    WrittenKeeps(m, at, v, h.offRsv, EncRsv(a));
    WrittenKeeps(m, at, v, at + 16, RsvBlock(c));
    WrittenKeeps(m, at, v, h.offStruct, Enc(Block(root)));
    StringsAt(h, m, t);
    WrittenKeeps(m, at, v, h.offStrings, t);
    StringsAt(h, m', t);
    WrittenHolds(m, at, v);
    OneEntry(r);
    RsvClose(h, m', root, t, a, [r], c);
  }

  lemma OneEntry(r: Rsv)
    ensures EncRsv([r]) == BE64(r.address) + BE64(r.size)
  {
    hide BE64;
    assert EncRsv([r]) == BE64(r.address) + BE64(r.size) + EncRsv([r][1..]);
  }

  /** Everything but the reservations is as it was. */
  ghost predicate OnlyRsv(h: Header, root: Item, t: bytes, f: Fdt)
    reads f, f.mem
  {
    && f.Valid() && f.root == root && f.Strings() == t
    && f.hdr == h.(offStruct := f.hdr.offStruct, offStrings := f.hdr.offStrings)
    && f.hdr.offStruct - h.offStruct == f.hdr.offStrings - h.offStrings
  }

  /** fdt_add_mem_rsv; an entry of size 0 would end the list. */
  method AddMemRsv(f: Fdt, address: nat, size: nat) returns (err: int)
    requires f.Valid() && address < TWO64 && 0 < size < TWO64
    modifies f`hdr, f`rsv, f.mem
    ensures OnlyRsv(old(f.hdr), old(f.root), old(f.Strings()), f)
    ensures err == if old(DataSize(f.hdr)) + 16 > f.hdr.totalsize then -FDT_ERR_NOSPACE else 0
    ensures f.rsv == old(f.rsv) + (if err == 0 then [Rsv(address, size)] else [])
    ensures DataSize(f.hdr) == old(DataSize(f.hdr)) + (if err == 0 then 16 else 0)
    ensures err != 0 ==> f.hdr == old(f.hdr) && f.mem[..] == old(f.mem[..])
  {
    hide EncRsv, BE64, Enc, Block, StringsOf, OkItem, Written, RsvOpen, Wf, RsvBlock;
    WfRsv(f.hdr, f.mem[..], f.root, f.rsv);
    var e := RwProbe(f);
    if f.ChkExtra() && e != 0 { return e; }
    ghost var l, t := f.rsv, f.Strings();
    var n := NumMemRsv(f.mem, 0, f.hdr, f.ChkExtra(), f.rsv);
    var re := f.hdr.offRsv + 16 * n;
    err := SpliceMemRsv(f, n, 0, 1);
    if err != 0 { return; }
    assert l[..n] == l && l[n + 0..] == [];
    EntryPut(f.hdr, f.mem[..], f.root, t, l, Rsv(address, size), []);
    assert l + [Rsv(address, size)] + [] == l + [Rsv(address, size)];
    Store(f.mem, re, BE64(address) + BE64(size));
    f.rsv := l + [Rsv(address, size)];
    return 0;
  }

  /** fdt_del_mem_rsv */
  method DelMemRsv(f: Fdt, n: nat) returns (err: int)
    requires f.Valid()
    modifies f`hdr, f`rsv, f.mem
    ensures OnlyRsv(old(f.hdr), old(f.root), old(f.Strings()), f)
    ensures err == if n >= old(|f.rsv|) then -FDT_ERR_NOTFOUND else 0
    ensures f.rsv == if err == 0 then old(f.rsv)[..n] + old(f.rsv)[n + 1..] else old(f.rsv)
    ensures DataSize(f.hdr) == old(DataSize(f.hdr)) - (if err == 0 then 16 else 0)
    ensures err != 0 ==> f.hdr == old(f.hdr) && f.mem[..] == old(f.mem[..])
  {
    hide EncRsv, Enc, Block, StringsOf, OkItem, RsvOpen, Wf, RsvBlock;
    WfRsv(f.hdr, f.mem[..], f.root, f.rsv);
    var e := RwProbe(f);
    if f.ChkExtra() && e != 0 { return e; }
    ghost var l, t := f.rsv, f.Strings();
    var num := NumMemRsv(f.mem, 0, f.hdr, f.ChkExtra(), f.rsv);
    if n >= num { return -FDT_ERR_NOTFOUND; }
    err := SpliceMemRsv(f, n, 1, 0);
    NoEntry(f.hdr, f.mem[..], f.root, t, l[..n], l[n + 1..]);
    assert l[..n] + [] + l[n + 1..] == l[..n] + l[n + 1..];
    f.rsv := l[..n] + l[n + 1..];
  }

  lemma NoEntry(h: Header, m: bytes, root: Item, t: bytes, a: seq<Rsv>, c: seq<Rsv>)
    requires RsvOpen(h, m, root, t, a, 0, c)
    ensures Wf(h, m, root, a + [] + c) && StringsOf(h, m) == t
  {
    hide Enc, Block, StringsOf, OkItem;
    assert EncRsv([]) == [];
    assert Occurs(m, h.offRsv + 16 * |a|, []);
    RsvClose(h, m, root, t, a, [], c);
  }

  // ------------------------------------------------------------------ fdt_support.c

  /** The first entry at an address, or the length of the list. */
  function FirstAt(l: seq<Rsv>, address: nat): (r: nat)
    ensures r <= |l| && (r < |l| ==> l[r].address == address) && forall i :: 0 <= i < r ==> l[i].address != address
  {
    if l == [] || l[0].address == address then 0 else 1 + FirstAt(l[1..], address)
  }

  /** k is kept of l but for its first entry at an address, if there is one. */
  predicate LostFirst(l: seq<Rsv>, address: nat, k: seq<Rsv>) {
    var n := FirstAt(l, address);
    && |k| == (if n < |l| then |l| - 1 else |l|)
    && (forall i :: 0 <= i < n ==> k[i] == l[i])
    && (forall i :: n <= i < |k| ==> k[i] == l[i + 1])
  }

  /** The list without the first entry at an address. */
  function Dropped(l: seq<Rsv>, address: nat): (r: seq<Rsv>)
    ensures LostFirst(l, address, r)
  {
    var k := FirstAt(l, address);
    if k < |l| then l[..k] + l[k + 1..] else l
  }

  /** The loop of fdt_initrd and of fdt_shrink_to_minimum: drop the first entry at an address. */
  method DropRsv(f: Fdt, address: nat) returns (found: bool)
    requires f.Valid()
    modifies f`hdr, f`rsv, f.mem
    ensures OnlyRsv(old(f.hdr), old(f.root), old(f.Strings()), f)
    ensures f.rsv == Dropped(old(f.rsv), address) && found == (FirstAt(old(f.rsv), address) < |old(f.rsv)|)
    ensures DataSize(f.hdr) == old(DataSize(f.hdr)) - (if found then 16 else 0)
  {
    hide Wf, StringsOf, RsvBlock;
    WfRsv(f.hdr, f.mem[..], f.root, f.rsv);
    ghost var l := f.rsv;
    var total := NumMemRsv(f.mem, 0, f.hdr, f.ChkExtra(), f.rsv);
    for j := 0 to total
      invariant f.hdr == old(f.hdr) && f.mem[..] == old(f.mem[..]) && f.rsv == l && f.Valid()
      invariant forall i :: 0 <= i < j ==> l[i].address != address
    {
      var err, addr, size := GetMemRsv(f, j);
      assert (l + [Rsv(0, 0)])[j] == l[j];
      if addr == address {
        err := DelMemRsv(f, j);
        return true;
      }
    }
    return false;
  }

  /**
    k is l with entry r at its end, and without the first entry at r's address: the ones before that
    entry are where they were, the ones after it one place further on.
   */
  predicate Renewed(l: seq<Rsv>, r: Rsv, k: seq<Rsv>) {
    var n := FirstAt(l, r.address);
    && |k| == (if n < |l| then |l| else |l| + 1) && k[|k| - 1] == r
    && (forall i :: 0 <= i < n ==> k[i] == l[i])
    && (forall i :: n <= i < |k| - 1 ==> k[i] == l[i + 1])
  }

  lemma RenewedBy(l: seq<Rsv>, r: Rsv)
    ensures Renewed(l, r, Dropped(l, r.address) + [r])
  {
    hide Dropped;
    assert LostFirst(l, r.address, Dropped(l, r.address));
  }

  /**
    The reservations after fdt_initrd: the first one at the same address is dropped, the new one
    is last, the others keep their order.  Once one was dropped there is room for the new one.
   */
  method InitrdReserve(f: Fdt, initrdStart: nat, initrdEnd: nat) returns (err: int)
    requires f.Valid() && initrdStart < initrdEnd < TWO64
    modifies f`hdr, f`rsv, f.mem
    ensures OnlyRsv(old(f.hdr), old(f.root), old(f.Strings()), f)
    ensures var found := FirstAt(old(f.rsv), initrdStart) < |old(f.rsv)|;
      err == if !found && old(DataSize(f.hdr)) + 16 > f.hdr.totalsize then -FDT_ERR_NOSPACE else 0
    ensures f.rsv == if err == 0 then Dropped(old(f.rsv), initrdStart) + [Rsv(initrdStart, initrdEnd - initrdStart)] else old(f.rsv)
    ensures err == 0 ==> Renewed(old(f.rsv), Rsv(initrdStart, initrdEnd - initrdStart), f.rsv)
    ensures GrewBy(old(f.hdr), f.hdr, if err == 0 && FirstAt(old(f.rsv), initrdStart) == |old(f.rsv)| then 16 else 0)
  {
    hide Wf, StringsOf, RsvBlock;
    WfRsv(f.hdr, f.mem[..], f.root, f.rsv);
    RenewedBy(f.rsv, Rsv(initrdStart, initrdEnd - initrdStart));
    var found := DropRsv(f, initrdStart);
    err := AddMemRsv(f, initrdStart, initrdEnd - initrdStart);
  }

  /** ALIGN(x, 0x1000) */
  function PageAlign(x: nat): (r: nat)
    ensures x <= r < x + 0x1000 && r % 0x1000 == 0
  {
    (x + 0xfff) / 0x1000 * 0x1000
  }

  /** The size fdt_shrink_to_minimum gives a blob with n bytes of data at an address. */
  function Shrunk(n: nat, address: nat, extrasize: nat): (r: int)
    ensures n + 80 + extrasize <= r < n + 80 + extrasize + 0x1000 && (address + r) % 0x1000 == 0
  {
    PageAlign(n + 80 + extrasize + address % 0x1000) - address % 0x1000
  }

  /** A total size that still holds the data. */
  lemma Retotalled(h: Header, m: bytes, root: Item, l: seq<Rsv>, n: nat)
    requires Wf(h, m, root, l) && DataSize(h) <= n <= |m| && n < INT32_MAX
    ensures Wf(h.(totalsize := n), m, root, l) && StringsOf(h.(totalsize := n), m) == StringsOf(h, m)
  {
    hide Enc, Block, RsvBlock, OkItem;
  }

  /**
    fdt_shrink_to_minimum of the blob at an address: it ends on the first page boundary past its
    data, five reservations and extrasize; its own reservation, if it had one, is last and has
    the new size, which always fits; tree and other reservations stay.
   */
  method ShrinkToMinimum(f: Fdt, address: nat, extrasize: nat) returns (r: int)
    requires f.Valid() && address < TWO64
    requires DataSize(f.hdr) + 80 + extrasize + 0x2000 < INT32_MAX
    requires Shrunk(DataSize(f.hdr), address, extrasize) <= f.mem.Length
    modifies f`hdr, f`rsv, f.mem
    ensures var l, n := old(f.rsv), old(DataSize(f.hdr)); var found := FirstAt(l, address) < |l|;
      && r == f.hdr.totalsize == Shrunk(if found then n - 16 else n, address, extrasize)
      && f.rsv == Dropped(l, address) + (if found then [Rsv(address, r)] else [])
    ensures var l := old(f.rsv);
      if exists i :: 0 <= i < |l| && l[i].address == address then r >= 0 && Renewed(l, Rsv(address, r), f.rsv) else f.rsv == l
    ensures f.Valid() && f.root == old(f.root) && f.Strings() == old(f.Strings())
  {
    hide Wf, StringsOf, RsvBlock, HasRsv, OkRsv, Dropped, FirstAt, Renewed, LostFirst, PageAlign;
    WfRsv(f.hdr, f.mem[..], f.root, f.rsv);
    ShrunkMono(DataSize(f.hdr), address, extrasize);
    ghost var l := f.rsv;
    FirstThere(l, address);
    var found := DropRsv(f, address);
    WfRsv(f.hdr, f.mem[..], f.root, f.rsv);
    var actualsize := f.hdr.offStrings + f.hdr.sizeStrings + 5 * 16;
    actualsize := actualsize + extrasize;
    actualsize := PageAlign(actualsize + address % 0x1000);
    actualsize := actualsize - address % 0x1000;
    Retotalled(f.hdr, f.mem[..], f.root, f.rsv, actualsize);
    f.hdr := f.hdr.(totalsize := actualsize);
    if found {
      var ret := AddMemRsv(f, address, actualsize);
      if ret < 0 { return ret; }
      RenewedBy(l, Rsv(address, actualsize));
    }
    return actualsize;
  }

  lemma FirstThere(l: seq<Rsv>, address: nat)
    ensures FirstAt(l, address) < |l| <==> exists i :: 0 <= i < |l| && l[i].address == address
    ensures FirstAt(l, address) == |l| ==> Dropped(l, address) + [] == l
  {
  }

  lemma ShrunkMono(n: nat, address: nat, extrasize: nat)
    ensures n >= 16 ==> Shrunk(n - 16, address, extrasize) <= Shrunk(n, address, extrasize)
  {
    if n >= 16 {
      var a := n - 16 + 80 + extrasize + address % 0x1000;
      assert (a + 0xfff) / 0x1000 <= (a + 16 + 0xfff) / 0x1000;
    }
  }
}
