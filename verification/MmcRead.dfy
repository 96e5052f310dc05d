/**
  The read path: mmc_read_data of storage.c, mmc_bread and mmc_read_blocks of mmc.c and the data
  transfers of sunxi_mmc.c.  A card is its contents; any command may fail.
 */
module MmcRead {
  import opened Bytes
  import opened Dma
  import Div64

  const ETIMEDOUT: int := 110
  const MMC_CMD_READ_SINGLE_BLOCK: nat := 17
  const MMC_CMD_READ_MULTIPLE_BLOCK: nat := 18
  const MAX_BLK_COUNT: nat := 65535
  /** Where DRAM starts; DMA is used for larger transfers into it. */
  const DRAM: nat := 0x400_0000

  /** The byte address of block k. */
  function ByteOf(k: nat, bl: nat): nat {
    k * bl
  }

  /** data->blocksize * data->blocks */
  lemma ByteCnt(blocks: nat, blocksize: nat)
    ensures blocksize * blocks == ByteOf(blocks, blocksize)
  {
  }

  lemma ByteOf512(k: nat)
    ensures ByteOf(k, 512) == k * 512
  {
  }

  lemma ByteOfSum(a: nat, b: nat, bl: nat)
    ensures ByteOf(a + b, bl) == ByteOf(a, bl) + ByteOf(b, bl)
    ensures b > 0 ==> ByteOf(b, bl) >= bl
    ensures a <= b ==> ByteOf(a, bl) <= ByteOf(b, bl)
  {
    assert (a + b) * bl == a * bl + b * bl;
    if b > 0 {
      assert b * bl == (b - 1) * bl + bl;
    }
    if a <= b {
      assert b * bl == a * bl + (b - a) * bl;
    }
  }

  /** Requests (start, count) of at most MAX_BLK_COUNT blocks that cover n blocks from start on, once and in order. */
  ghost predicate Tiles(rs: seq<(nat, nat)>, start: nat, n: nat) {
    if rs == [] then n == 0
    else rs[0].0 == start && 1 <= rs[0].1 <= MAX_BLK_COUNT && rs[0].1 <= n && Tiles(rs[1..], start + rs[0].1, n - rs[0].1)
  }

  /** The requests made since rs tile n blocks from start on. */
  ghost predicate Requested(rs: seq<(nat, nat)>, now: seq<(nat, nat)>, start: nat, n: nat) {
    |now| >= |rs| && now[..|rs|] == rs && Tiles(now[|rs|..], start, n)
  }

  lemma {:induction false} TilesAppend(rs: seq<(nat, nat)>, start: nat, n: nat, cur: nat)
    requires Tiles(rs, start, n) && 1 <= cur <= MAX_BLK_COUNT
    ensures Tiles(rs + [(start + n, cur)], start, n + cur)
  {
    if rs == [] {
      assert [(start + n, cur)][1..] == [];
    } else {
      TilesAppend(rs[1..], start + rs[0].1, n - rs[0].1, cur);
      assert (rs + [(start + n, cur)])[1..] == rs[1..] + [(start + n, cur)];
    }
  }

  /** The n bytes of d at a have been stored at index at. */
  ghost predicate Fetched(m: bytes, m': bytes, at: nat, d: bytes, a: nat, n: nat) {
    a + n <= |d| && at + n <= |m| && m' == Written(m, at, d[a..a + n])
  }

  /** The bytes a card sends for a read at this argument: a block number or a byte address. */
  function CardData(card: bytes, highCapacity: bool, arg: nat, n: nat): bytes {
    var at := if highCapacity then arg * 512 else arg;
    if at + n <= |card| then card[at..at + n] else []
  }

  /** The argument of the read command addresses the blocks meant. */
  lemma CardRange(card: bytes, highCapacity: bool, bl: nat, lba: nat, start: nat, blkcnt: nat)
    requires (highCapacity ==> bl == 512) && ByteOf(lba, bl) <= |card| && lba <= TWO32 && (!highCapacity ==> ByteOf(lba, bl) <= TWO32)
    requires 1 <= blkcnt && start + blkcnt <= lba && bl > 0
    ensures var arg := (if highCapacity then start else ByteOf(start, bl)) % TWO32;
      var a, n := ByteOf(start, bl), ByteOf(blkcnt, bl);
      a + n <= |card| && CardData(card, highCapacity, arg, n) == card[a..a + n]
  {
    hide ByteOf;
    ByteOfSum(start, blkcnt, bl);
    ByteOfSum(start + blkcnt, lba, bl);
    if highCapacity {
      ByteOf512(start);
    }
  }

  class Mmc {
    const mem: array<byte>
    const card: bytes
    const descs: array<Desc>
    const descBase: nat
    const dmaMax: nat
    const readBlLen: nat
    const highCapacity: bool
    const lba: nat
    var fatalErr: bool
    ghost var requests: seq<(nat, nat)>
    /** How often a word or the end of a transfer did not come in time. */
    ghost var faults: nat

    /** What initialisation leaves: block length and capacity from the card, descriptors for 64 MiB. */
    ghost predicate Ready() {
      && (dmaMax == 0x2000 || dmaMax == 0x10000) && descs.Length == 512 * 65536 / dmaMax
      && descBase + DESC_SIZE * descs.Length <= TWO32 && mem.Length <= TWO32
      && 4 <= readBlLen <= 512 && readBlLen % 4 == 0 && (highCapacity ==> readBlLen == 512)
      && ByteOf(lba, readBlLen) <= |card| && lba <= TWO32 && (!highCapacity ==> ByteOf(lba, readBlLen) <= TWO32)
    }

    lemma ReadyFacts()
      requires Ready()
      ensures 4 <= readBlLen <= 512 && readBlLen % 4 == 0 && ByteOf(lba, readBlLen) <= |card|
    {
    }

    constructor (buf: array<byte>, contents: bytes, d: array<Desc>, base: nat, max: nat, bl: nat, hc: bool, blocks: nat)
      ensures mem == buf && card == contents && descs == d && descBase == base && dmaMax == max && readBlLen == bl
      ensures highCapacity == hc && lba == blocks && !fatalErr && requests == [] && faults == 0
    {
      mem, card, descs, descBase, dmaMax, readBlLen := buf, contents, d, base, max, bl;
      highCapacity, lba, fatalErr, requests, faults := hc, blocks, false, [], 0;
    }

    /** mmc_trans_data_by_cpu: the words of the FIFO, any of which may not come in time. */
    method TransDataByCpu(buff: nat, fifo: bytes) returns (err: int)
      requires |fifo| % 4 == 0 && buff + |fifo| <= mem.Length
      modifies mem, this`faults
      ensures faults >= old(faults) && (err == 0 || err == -ETIMEDOUT) && (err != 0 ==> faults > old(faults))
      ensures err == 0 ==> mem[..] == Written(old(mem[..]), buff, fifo)
      ensures SameOutside(old(mem[..]), mem[..], buff, |fifo|)
    {
      for i := 0 to |fifo| / 4
        invariant mem[buff..buff + 4 * i] == fifo[..4 * i]
        invariant SameOutside(old(mem[..]), mem[..], buff, |fifo|) && faults == old(faults)
      {
        var late: bool := *;
        if late {
          faults := faults + 1;
          return -ETIMEDOUT;
        }
        PutWord(buff, 4 * i, fifo);
      }
      WithinFull(old(mem[..]), mem[..], buff, fifo);
      return 0;
    }

    /** buff[i] = readl(fifo) */
    method PutWord(buff: nat, k: nat, fifo: bytes)
      requires k + 4 <= |fifo| && buff + |fifo| <= mem.Length
      requires mem[buff..buff + k] == fifo[..k]
      modifies mem
      ensures mem[buff..buff + (k + 4)] == fifo[..k + 4]
      ensures forall m :: SameOutside(m, old(mem[..]), buff, |fifo|) ==> SameOutside(m, mem[..], buff, |fifo|)
    {
      ghost var was := mem[..];
      Store(mem, buff + k, fifo[k..k + 4]);
      SameStored(was, buff + k, fifo[k..k + 4]);
      forall m | SameOutside(m, was, buff, |fifo|)
        ensures SameOutside(m, mem[..], buff, |fifo|)
      {
        SameTrans(m, was, mem[..], buff, |fifo|, buff + k, 4);
      }
      WrittenNext(was, buff, k, fifo);
    }

    /** The engine of Dma.Run, run on the memory. */
    method RunEngine(data: bytes, steps: nat) returns (ok: bool)
      modifies mem
      ensures var r := Run(descs[..], descBase, descBase, true, data, old(mem[..]), steps);
        if r.Done? && |r.mem| == mem.Length then ok && mem[..] == r.mem else !ok && mem[..] == old(mem[..])
    {
      var r := Run(descs[..], descBase, descBase, true, data, mem[..], steps);
      if r.Fault? || |r.mem| != mem.Length { return false; }
      Store(mem, 0, r.mem);
      assert Written(old(mem[..]), 0, r.mem) == r.mem;
      return true;
    }

    /** sunxi_mmc_send_cmd_common for a read of blocks. */
    method SendRead(cmdarg: nat, dest: nat, blocks: nat, blocksize: nat) returns (err: int)
      requires Ready() && 1 <= blocks <= MAX_BLK_COUNT && blocksize == readBlLen && dest + ByteOf(blocks, blocksize) <= mem.Length
      requires |CardData(card, highCapacity, cmdarg, ByteOf(blocks, blocksize))| == ByteOf(blocks, blocksize)
      modifies mem, descs, this`faults
      ensures faults >= old(faults) && (err != 0 ==> dest % 4 != 0 || fatalErr || faults > old(faults))
      ensures err == 0 ==> dest % 4 == 0 && !fatalErr && mem[..] == Written(old(mem[..]), dest, CardData(card, highCapacity, cmdarg, ByteOf(blocks, blocksize)))
      ensures SameOutside(old(mem[..]), mem[..], dest, ByteOf(blocks, blocksize))
    {
      hide Written, CardData, Run, ByteOf;
      ghost var m := mem[..];
      if fatalErr { return -1; }
      if dest % 4 != 0 { return -1; }
      var bytecnt := ByteOf(blocks, blocksize);
      EnoughDescs(blocks, blocksize, dmaMax);
      ByteCnt(blocks, blocksize);
      WholeWords(blocks, blocksize);
      var data := CardData(card, highCapacity, cmdarg, bytecnt);
      SameStored(m, dest, data);
      if bytecnt > 64 && dest >= DRAM {
        err := TransDataByDma(descs, descBase, dmaMax, dest, bytecnt);
        ChainRuns(descs[..], bytecnt, dmaMax, descBase, dest, data, m);
        var ok := RunEngine(data, DescCount(bytecnt, dmaMax));
      } else {
        err := TransDataByCpu(dest, data);
      }
      if err != 0 { return; }
      var late: bool := *;
      if late {
        faults := faults + 1;
        return -ETIMEDOUT;
      }
      return 0;
    }

    /** mmc_read_blocks; STOP_TRANSMISSION is done by the controller. */
    method ReadBlocks(dst: nat, start: nat, blkcnt: nat) returns (n: nat)
      requires Ready() && 1 <= blkcnt <= MAX_BLK_COUNT && start + blkcnt <= lba && dst + ByteOf(blkcnt, readBlLen) <= mem.Length
      modifies mem, descs, this`requests, this`faults
      ensures n == 0 || n == blkcnt
      ensures faults >= old(faults) && (n == 0 ==> dst % 4 != 0 || fatalErr || faults > old(faults))
      ensures n == blkcnt ==> Fetched(old(mem[..]), mem[..], dst, card, ByteOf(start, readBlLen), ByteOf(blkcnt, readBlLen))
      ensures SameOutside(old(mem[..]), mem[..], dst, ByteOf(blkcnt, readBlLen))
      ensures requests == old(requests) + [(start, blkcnt)]
    {
      hide Written;
      var cmdidx := if blkcnt > 1 then MMC_CMD_READ_MULTIPLE_BLOCK else MMC_CMD_READ_SINGLE_BLOCK;
      var cmdarg := (if highCapacity then start else ByteOf(start, readBlLen)) % TWO32;
      CardRange(card, highCapacity, readBlLen, lba, start, blkcnt);
      requests := requests + [(start, blkcnt)];
      var err := SendRead(cmdarg, dst, blkcnt, readBlLen);
      if err != 0 { return 0; }
      return blkcnt;
    }

    /** The loop of mmc_bread, for a range that is there. */
    method ReadChunks(start: nat, blkcnt: nat, dst: nat) returns (r: nat)
      requires Ready() && start + blkcnt <= lba && dst + ByteOf(blkcnt, readBlLen) <= mem.Length
      modifies mem, descs, this`requests, this`faults
      ensures r == 0 || r == blkcnt
      ensures faults >= old(faults) && (r != blkcnt ==> dst % 4 != 0 || fatalErr || faults > old(faults))
      ensures r == blkcnt > 0 ==> Fetched(old(mem[..]), mem[..], dst, card, ByteOf(start, readBlLen), ByteOf(blkcnt, readBlLen))
      ensures r == blkcnt > 0 ==> Requested(old(requests), requests, start, blkcnt)
      ensures SameOutside(old(mem[..]), mem[..], dst, ByteOf(blkcnt, readBlLen))
    {
      hide Written, ByteOf, Requested, Fetched, SameOutside, Ready;
      ReadyFacts();
      SameRefl(mem[..], dst, ByteOf(blkcnt, readBlLen));
      ghost var bl, m, rs := readBlLen, mem[..], requests;
      var todo, from, to := blkcnt, start, dst;
      ByteOfSum(start, blkcnt, bl);
      ByteOfSum(start + blkcnt, lba, bl);
      ghost var a := ByteOf(start, bl);
      NothingRead(m, dst, card, a, start, rs, bl);
      while todo > 0
        invariant 0 <= todo <= blkcnt && from == start + (blkcnt - todo) && to == dst + ByteOf(blkcnt - todo, bl)
        invariant Fetched(m, mem[..], dst, card, a, ByteOf(blkcnt - todo, bl))
        invariant SameOutside(m, mem[..], dst, ByteOf(blkcnt, bl))
        invariant faults >= old(faults)
        invariant Requested(rs, requests, start, blkcnt - todo)
      {
        var cur := if todo > MAX_BLK_COUNT then MAX_BLK_COUNT else todo;
        ghost var done, m1, rs1 := blkcnt - todo, mem[..], requests;
        ChunkPlace(start, done, cur, blkcnt, bl);
        var n := ReadBlocks(to, from, cur);
        SameTrans(m, m1, mem[..], dst, ByteOf(blkcnt, bl), to, ByteOf(cur, bl));
        if n != cur {
          SameAlign(dst, done, bl);
          return 0;
        }
        FetchedMore(m, m1, mem[..], dst, card, a, ByteOf(done, bl), ByteOf(cur, bl));
        RequestsMore(rs, rs1, requests, start, done, cur);
        todo := todo - cur;
        from := from + cur;
        to := to + ByteOf(cur, readBlLen);
      }
      assert blkcnt - todo == blkcnt;
      return blkcnt;
    }

    /** mmc_bread: all blocks or none reported, none only for a reason; the requests tile the range. */
    method Bread(start: nat, blkcnt: nat, dst: nat, setBlocklenFails: bool) returns (r: nat)
      requires Ready() && start + blkcnt < TWO64 && dst + ByteOf(blkcnt, readBlLen) <= mem.Length
      modifies mem, descs, this`requests, this`faults
      ensures r == 0 || r == blkcnt
      ensures faults >= old(faults)
      ensures r != blkcnt ==> start + blkcnt > lba || setBlocklenFails || dst % 4 != 0 || fatalErr || faults > old(faults)
      ensures r == blkcnt > 0 ==> start + blkcnt <= lba
      ensures r == blkcnt > 0 ==> Fetched(old(mem[..]), mem[..], dst, card, ByteOf(start, readBlLen), ByteOf(blkcnt, readBlLen))
      ensures r == blkcnt > 0 ==> Requested(old(requests), requests, start, blkcnt)
      ensures start + blkcnt > lba ==> r == 0 && mem[..] == old(mem[..]) && requests == old(requests)
      ensures SameOutside(old(mem[..]), mem[..], dst, ByteOf(blkcnt, readBlLen))
    {
      hide Written, ByteOf, Requested, Fetched, SameOutside, Ready;
      SameRefl(mem[..], dst, ByteOf(blkcnt, readBlLen));
      if blkcnt == 0 { return 0; }
      if start + blkcnt > lba { return 0; }
      if setBlocklenFails { return 0; }
      r := ReadChunks(start, blkcnt, dst);
    }

    /** The sectors mmc_read_data asks for; the sum is in 32 bits. */
    function Sectors(len: nat): nat
      requires Ready()
    {
      Div64.Udiv((len + readBlLen - 1) % TWO32, readBlLen)
    }

    /** mmc_read_data: the sectors from that of the offset on, which hold the bytes wanted if the offset is aligned and the sum does not wrap. */
    method ReadData(dest: nat, off: nat, len: nat, setBlocklenFails: bool) returns (ok: bool)
      requires Ready() && len < TWO32 && off < TWO64 / 2 && dest + ByteOf(Sectors(len), readBlLen) <= mem.Length
      modifies mem, descs, this`requests, this`faults
      ensures faults >= old(faults)
      ensures !ok ==> Div64.Udiv(off, readBlLen) + Sectors(len) > lba || setBlocklenFails || dest % 4 != 0 || fatalErr || faults > old(faults)
      ensures ok && Sectors(len) > 0 ==>
        Fetched(old(mem[..]), mem[..], dest, card, ByteOf(Div64.Udiv(off, readBlLen), readBlLen), ByteOf(Sectors(len), readBlLen))
      ensures ok && len > 0 && off % readBlLen == 0 && len + readBlLen - 1 < TWO32 ==>
        off + len <= |card| && dest + len <= mem.Length && mem[dest..dest + len] == card[off..off + len]
      ensures SameOutside(old(mem[..]), mem[..], dest, ByteOf(Sectors(len), readBlLen))
    {
      hide Written, Tiles;
      ghost var m := mem[..];
      var sectors := Sectors(len);
      var start := Div64.Udiv(off, readBlLen);
      StartFits(off, readBlLen);
      var read := Bread(start, sectors, dest, setBlocklenFails);
      if len > 0 && off % readBlLen == 0 && len + readBlLen - 1 < TWO32 {
        SectorsCover(off, len, readBlLen);
        if read == sectors {
          ReadBack(m, mem[..], dest, card, off, ByteOf(sectors, readBlLen), len);
        }
      }
      return sectors == read;
    }
  }

  lemma SameAlign(at: nat, blocks: nat, bl: nat)
    requires bl % 4 == 0 && bl > 0
    ensures (at + ByteOf(blocks, bl)) % 4 == at % 4
  {
    hide ByteOf;
    if blocks > 0 {
      WholeWords(blocks, bl);
      AddWords(at, ByteOf(blocks, bl));
    } else {
      NoBytes(bl);
    }
  }

  lemma AddWords(at: nat, n: nat)
    requires n % 4 == 0
    ensures (at + n) % 4 == at % 4
  {
  }

  lemma NoBytes(bl: nat)
    ensures ByteOf(0, bl) == 0
  {
  }

  lemma WholeWords(blocks: nat, bl: nat)
    requires bl % 4 == 0 && bl > 0 && blocks > 0
    ensures ByteOf(blocks, bl) % 4 == 0 && ByteOf(blocks, bl) > 0
  {
    var c := bl / 4;
    assert blocks * bl == 4 * (c * blocks) by { Div64.MulSwap(4, c, blocks); }
    Div64.ModMul(c * blocks, 4);
    Div64.MulLe(1, 1, blocks, bl);
  }

  lemma WithinFull(m: bytes, m': bytes, a: nat, v: bytes)
    requires SameOutside(m, m', a, |v|) && m'[a..a + |v|] == v
    ensures m' == Written(m, a, v)
  {
    assert m' == m'[..a] + m'[a..a + |v|] + m'[a + |v|..];
  }

  lemma WrittenNext(m: bytes, a: nat, k: nat, v: bytes)
    requires k + 4 <= |v| && a + |v| <= |m| && m[a..a + k] == v[..k]
    ensures Written(m, a + k, v[k..k + 4])[a..a + (k + 4)] == v[..k + 4]
  {
    var w := Written(m, a + k, v[k..k + 4]);
    assert w[a..a + k] == m[a..a + k];
    assert w[a + k..a + (k + 4)] == v[k..k + 4];
    assert w[a..a + (k + 4)] == w[a..a + k] + w[a + k..a + (k + 4)];
  }

  lemma FetchedMore(m: bytes, m1: bytes, m2: bytes, at: nat, d: bytes, a: nat, x: nat, y: nat)
    requires Fetched(m, m1, at, d, a, x) && Fetched(m1, m2, at + x, d, a + x, y)
    ensures Fetched(m, m2, at, d, a, x + y)
  {
    assert d[a..a + (x + y)] == d[a..a + x] + d[a + x..a + x + y];
    WrittenTwice(m, at, d[a..a + x], d[a + x..a + x + y]);
  }

  /** One more request after those that tile a range. */
  lemma RequestsMore(rs: seq<(nat, nat)>, rs1: seq<(nat, nat)>, rs2: seq<(nat, nat)>, start: nat, n: nat, cur: nat)
    requires Requested(rs, rs1, start, n) && 1 <= cur <= MAX_BLK_COUNT
    requires rs2 == rs1 + [(start + n, cur)]
    ensures Requested(rs, rs2, start, n + cur)
  {
    hide Tiles;
    TilesAppend(rs1[|rs|..], start, n, cur);
    assert rs2[|rs|..] == rs1[|rs|..] + [(start + n, cur)];
    assert rs2[..|rs|] == rs1[..|rs|];
  }

  /** Where the next chunk of a range goes, and that it fits. */
  lemma ChunkPlace(start: nat, done: nat, cur: nat, blkcnt: nat, bl: nat)
    requires done + cur <= blkcnt
    ensures ByteOf(done + cur, bl) == ByteOf(done, bl) + ByteOf(cur, bl) <= ByteOf(blkcnt, bl)
    ensures ByteOf(start + done, bl) == ByteOf(start, bl) + ByteOf(done, bl)
  {
    hide ByteOf;
    ByteOfSum(done, cur, bl);
    ByteOfSum(start, done, bl);
    ByteOfSum(done + cur, blkcnt, bl);
  }

  lemma NothingRead(m: bytes, at: nat, d: bytes, a: nat, start: nat, rs: seq<(nat, nat)>, bl: nat)
    requires at <= |m| && a <= |d|
    ensures ByteOf(0, bl) == 0 && Fetched(m, m, at, d, a, 0) && Requested(rs, rs, start, 0)
  {
  }

  lemma StartFits(off: nat, bl: nat)
    requires bl > 0
    ensures off / bl <= off
  {
    var q := Div64.Udiv(off, bl);
    assert off == q * bl + off % bl;
    Div64.MulLe(q, 1, q, bl);
  }

  /** The sectors read cover the bytes wanted. */
  lemma SectorsCover(off: nat, len: nat, bl: nat)
    requires bl > 0 && off % bl == 0 && len > 0
    ensures var k := (len + bl - 1) / bl; k > 0 && ByteOf(off / bl, bl) == off && len <= ByteOf(k, bl)
  {
    var k := (len + bl - 1) / bl;
    assert len + bl - 1 == k * bl + (len + bl - 1) % bl;
    assert off == off / bl * bl + off % bl;
  }

  lemma ReadBack(m: bytes, m': bytes, at: nat, d: bytes, a: nat, n: nat, len: nat)
    requires len <= n && Fetched(m, m', at, d, a, n)
    ensures a + len <= |d| && at + len <= |m'| && m'[at..at + len] == d[a..a + len]
  {
    assert m'[at..at + n] == d[a..a + n];
    assert m'[at..at + len] == m'[at..at + n][..len] == d[a..a + n][..len] == d[a..a + len];
  }

  /** The 32-bit sum gives the right number of sectors exactly when it does not wrap. */
  lemma SectorsExact(len: nat, bl: nat)
    requires 4 <= bl <= 512 && len < TWO32
    ensures (len + bl - 1) % TWO32 / bl == (len + bl - 1) / bl <==> len + bl - 1 < TWO32
  {
    var s := len + bl - 1;
    if s >= TWO32 {
      assert s % TWO32 == s - TWO32 < bl;
      DivBig(s, bl);
    }
  }

  /** The longest 32-bit length would have no sectors at all. */
  lemma SectorsLost()
    ensures var len, bl := TWO32 - 1, 512; (len + bl - 1) % TWO32 / bl == 0 < (len + bl - 1) / bl
  {
  }

  lemma DivBig(s: nat, bl: nat)
    requires 0 < bl <= s
    ensures s / bl >= 1
  {
    assert s == s / bl * bl + s % bl;
  }
}
