/**
  sunxi_mmc.c: the descriptor chain of one transfer, and a DMA engine that runs such chains.
  An address is an index into the memory; a descriptor takes 16 bytes of address space.
 */
module Dma {
  import opened Bytes

  const ENOMEM: int := 12
  const DESC_SIZE: nat := 16
  /** BIT(1), BIT(2), BIT(3), BIT(4) and BIT(31) of a descriptor's config word. */
  datatype Config = Config(dic: bool, last: bool, first: bool, chain: bool, hold: bool)
  datatype Desc = Desc(config: Config, bufSize: nat, ptr1: nat, ptr2: nat)

  const ZERO_DESC: Desc := Desc(Config(false, false, false, false, false), 0, 0, 0)

  // ------------------------------------------------------------------ the engine

  datatype Outcome = Fault | Done(mem: bytes)

  /**
    The engine at address `at` with data still to deliver: it takes the descriptor there if it
    owns it, delivers the descriptor's share, and stops or follows the link.  It stops with a
    fault at anything else, and when it delivers less or more than there is.
   */
  function Run(descs: seq<Desc>, base: nat, at: nat, first: bool, data: bytes, mem: bytes, steps: nat): Outcome
    decreases steps
  {
    var i := if at >= base && (at - base) % DESC_SIZE == 0 then (at - base) / DESC_SIZE else |descs|;
    if steps == 0 || i >= |descs| then Fault
    else
      var d := descs[i];
      if !d.config.hold || d.config.first != first || d.bufSize > |data| || d.ptr1 + d.bufSize > |mem| then Fault
      else
        var mem' := Written(mem, d.ptr1, data[..d.bufSize]);
        if d.config.last then (if d.bufSize == |data| then Done(mem') else Fault)
        else if !d.config.chain then Fault
        else Run(descs, base, d.ptr2, false, data[d.bufSize..], mem', steps - 1)
  }

  // ------------------------------------------------------------------ the chain

  /** The number of descriptors for n bytes. */
  function DescCount(n: nat, max: nat): nat
    requires max > 0
  {
    if n % max == 0 then n / max else n / max + 1
  }

  /** i * DMA_BUF_MAX_SIZE */
  function Pos(i: nat, max: nat): nat {
    i * max
  }

  lemma PosStep(i: nat, max: nat)
    ensures Pos(i + 1, max) == Pos(i, max) + max && Pos(0, max) == 0
  {
  }

  /** Descriptor i of the chain for n bytes at buff: one full piece, or the rest. */
  function Piece(i: nat, n: nat, max: nat, base: nat, buff: nat): Desc
    requires Pos(i, max) < n && max > 0
  {
    var last := Pos(i + 1, max) >= n;
    Desc(Config(!last, last, i == 0, true, true), if last then n - Pos(i, max) else max, buff + Pos(i, max),
         if last then 0 else base + DESC_SIZE * (i + 1))
  }

  /** The pieces partition the n bytes at buff, in order, linked one to the next. */
  ghost predicate Chain(descs: seq<Desc>, n: nat, max: nat, base: nat, buff: nat) {
    max > 0 && |descs| >= DescCount(n, max) &&
    forall i :: 0 <= i < DescCount(n, max) ==> Pos(i, max) < n && descs[i] == Piece(i, n, max, base, buff)
  }

  lemma CountIs(n: nat, max: nat)
    requires max > 0 && n > 0
    ensures var k := DescCount(n, max); k > 0 && Pos(k - 1, max) < n <= Pos(k, max)
  {
    var q := n / max;
    assert n == q * max + n % max;
    PosStep(q, max);
    if n % max == 0 {
      PosStep(q - 1, max);
    }
  }

  lemma PosMono(i: nat, j: nat, max: nat)
    requires i <= j
    ensures Pos(i, max) <= Pos(j, max)
  {
  }

  lemma PieceStarts(n: nat, max: nat, i: nat)
    requires max > 0 && n > 0
    ensures i < DescCount(n, max) <==> Pos(i, max) < n
  {
    hide Pos, DescCount;
    CountIs(n, max);
    var k := DescCount(n, max);
    if i < k {
      PosMono(i, k - 1, max);
    } else {
      PosMono(k, i, max);
    }
  }

  /** One step of the engine at descriptor i of a chain. */
  lemma RunStep(descs: seq<Desc>, base: nat, i: nat, data: bytes, mem: bytes, steps: nat)
    requires i < |descs| && steps > 0
    requires var d := descs[i]; d.config.hold && d.config.chain && d.config.first == (i == 0) && d.bufSize <= |data| && d.ptr1 + d.bufSize <= |mem|
    ensures var d := descs[i]; var mem' := Written(mem, d.ptr1, data[..d.bufSize]);
      Run(descs, base, base + DESC_SIZE * i, i == 0, data, mem, steps) ==
      if !d.config.last then Run(descs, base, d.ptr2, false, data[d.bufSize..], mem', steps - 1)
      else if d.bufSize == |data| then Done(mem') else Fault
  {
    assert (DESC_SIZE * i) % DESC_SIZE == 0 && (DESC_SIZE * i) / DESC_SIZE == i;
  }

  /** From descriptor i on, the engine delivers the rest of the data where it belongs. */
  lemma {:induction false} ChainRunsFrom(descs: seq<Desc>, n: nat, max: nat, base: nat, buff: nat, data: bytes, mem: bytes, i: nat, steps: nat)
    requires Chain(descs, n, max, base, buff) && |data| == n && buff + n <= |mem|
    requires Pos(i, max) < n && steps + i >= DescCount(n, max)
    ensures Run(descs, base, base + DESC_SIZE * i, i == 0, data[Pos(i, max)..], Written(mem, buff, data[..Pos(i, max)]), steps)
         == Done(Written(mem, buff, data))
    decreases n - Pos(i, max)
  {
    hide Written, Run, Pos, DescCount;
    PieceStarts(n, max, i);
    PosStep(i, max);
    var p, k := Piece(i, n, max, base, buff), Pos(i, max);
    assert descs[i] == p;
    var a, rest := data[..k], data[k..];
    var m := Written(mem, buff, a);
    RunStep(descs, base, i, rest, m, steps);
    WrittenTwice(mem, buff, a, rest[..p.bufSize]);
    if p.config.last {
      assert rest[..p.bufSize] == rest && a + rest == data;
    } else {
      Cut(data, k, k + max);
      ChainRunsFrom(descs, n, max, base, buff, data, mem, i + 1, steps - 1);
    }
  }

  lemma Cut(d: bytes, k: nat, l: nat)
    requires k <= l <= |d|
    ensures d[..k] + d[k..][..l - k] == d[..l] && d[k..][l - k..] == d[l..]
  {
  }

  /** The engine run on a chain delivers exactly the data, to exactly the buffer. */
  lemma ChainRuns(descs: seq<Desc>, n: nat, max: nat, base: nat, buff: nat, data: bytes, mem: bytes)
    requires Chain(descs, n, max, base, buff) && |data| == n > 0 && buff + n <= |mem|
    ensures Run(descs, base, base, true, data, mem, DescCount(n, max)) == Done(Written(mem, buff, data))
  {
    PosStep(0, max);
    assert data[0..] == data && data[..0] == [];
    assert Written(mem, buff, []) == mem;
    ChainRunsFrom(descs, n, max, base, buff, data, mem, 0, DescCount(n, max));
  }

  /** One FIRST and one LAST descriptor, no piece larger than the engine takes. */
  lemma ChainShape(descs: seq<Desc>, n: nat, max: nat, base: nat, buff: nat, i: nat)
    requires Chain(descs, n, max, base, buff) && n > 0 && i < DescCount(n, max)
    ensures var d := descs[i]; 0 < d.bufSize <= max && d.config.first == (i == 0) && d.config.last == (i == DescCount(n, max) - 1)
    ensures i > 0 ==> descs[i].ptr1 == descs[i - 1].ptr1 + descs[i - 1].bufSize
  {
    CountIs(n, max);
    PieceStarts(n, max, i);
    PieceStarts(n, max, i + 1);
    PosStep(i, max);
    assert descs[i] == Piece(i, n, max, base, buff);
    if i > 0 {
      PieceStarts(n, max, i - 1);
      assert descs[i - 1] == Piece(i - 1, n, max, base, buff);
      PosStep(i - 1, max);
    }
  }

  /** A legal chunk never needs more descriptors than the driver has. */
  lemma EnoughDescs(blocks: nat, blocksize: nat, max: nat)
    requires blocks <= 65535 && blocksize <= 512 && (max == 0x2000 || max == 0x10000)
    ensures DescCount(blocksize * blocks, max) <= 512 * 65536 / max
  {
    assert blocksize * blocks <= 512 * blocks <= 512 * 65535;
  }

  /** mmc_trans_data_by_dma: the descriptors of a transfer of byteCnt bytes. */
  method TransDataByDma(descs: array<Desc>, base: nat, max: nat, buff: nat, byteCnt: nat) returns (err: int)
    requires max > 0 && byteCnt > 0 && buff + byteCnt <= TWO32 && base + DESC_SIZE * descs.Length <= TWO32
    modifies descs
    ensures err == if DescCount(byteCnt, max) > descs.Length then -ENOMEM else 0
    ensures err == 0 ==> Chain(descs[..], byteCnt, max, base, buff)
    ensures err != 0 ==> descs[..] == old(descs[..])
  {
    hide Piece;
    var nDesc := byteCnt / max;
    var lastBlockSize := byteCnt % max;
    if lastBlockSize != 0 {
      nDesc := nDesc + 1;
    }
    assert nDesc == DescCount(byteCnt, max);
    CountIs(byteCnt, max);
    hide Pos, DescCount;
    if nDesc > descs.Length { return -ENOMEM; }
    for i := 0 to nDesc
      invariant forall j :: 0 <= j < i ==> descs[j] == ZERO_DESC
    {
      descs[i] := ZERO_DESC;
    }
    for i := 0 to nDesc
      invariant forall j :: i <= j < nDesc ==> descs[j] == ZERO_DESC
      invariant forall j :: 0 <= j < i ==> Pos(j, max) < byteCnt && descs[j] == Piece(j, byteCnt, max, base, buff)
    {
      PieceStarts(byteCnt, max, i);
      var isLast := i == nDesc - 1;
      var isFirst := i == 0;
      var d := descs[i];
      d := d.(config := Config(!isLast, isLast, isFirst, true, true));
      d := d.(bufSize := if isLast && lastBlockSize != 0 then lastBlockSize else max);
      d := d.(ptr1 := (buff + Pos(i, max)) % TWO32);
      if !isLast {
        d := d.(ptr2 := (base + DESC_SIZE * (i + 1)) % TWO32);
      }
      PieceIs(d, i, byteCnt, max, base, buff);
      descs[i] := d;
    }
    return 0;
  }

  lemma PieceIs(d: Desc, i: nat, n: nat, max: nat, base: nat, buff: nat)
    requires max > 0 && n > 0 && i < DescCount(n, max) && buff + n <= TWO32 && base + DESC_SIZE * DescCount(n, max) <= TWO32
    requires var last := i == DescCount(n, max) - 1;
      d == Desc(Config(!last, last, i == 0, true, true), if last && n % max != 0 then n % max else max,
                (buff + Pos(i, max)) % TWO32, if last then 0 else (base + DESC_SIZE * (i + 1)) % TWO32)
    ensures Pos(i, max) < n && d == Piece(i, n, max, base, buff)
  {
    hide Pos, DescCount;
    PieceStarts(n, max, i);
    PieceStarts(n, max, i + 1);
    if i == DescCount(n, max) - 1 {
      LastPiece(n, max);
    }
  }

  lemma LastPiece(n: nat, max: nat)
    requires max > 0 && n > 0
    ensures DescCount(n, max) > 0 && n - Pos(DescCount(n, max) - 1, max) == if n % max != 0 then n % max else max
  {
    var q := n / max;
    assert n == q * max + n % max;
    if n % max == 0 {
      PosStep(q - 1, max);
    }
  }
}
