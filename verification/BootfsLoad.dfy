/**
  storage.c: from a name to bytes in memory.  The card holds a boot filesystem at an offset, whose
  metadata have been read.
 */
module BootfsLoad {
  import opened Wrappers
  import opened Bytes
  import opened Bootfs
  import opened MmcRead

  const MAX_LOAD: nat := 512 * 1024 * 1024

  /** The card holds device contents dev at an offset. */
  ghost predicate OnCard(card: bytes, at: nat, dev: bytes) {
    Occurs(card, at, dev)
  }

  /** bootfs_load_image */
  method LoadImage(c: Mmc, mmcOffset: nat, dest: nat, off: nat, len: nat, setBlocklenFails: bool) returns (r: int)
    requires c.Ready() && c.readBlLen == 512 && mmcOffset % 512 == 0 && mmcOffset < TWO64 / 4 && off < TWO32 && len < TWO32
    requires dest + len + 512 <= c.mem.Length
    modifies c.mem, c.descs, c`requests, c`faults
    ensures r == -1 || r == len
    ensures r == -1 ==> off % 512 != 0 || len > MAX_LOAD || mmcOffset + off + len > 512 * c.lba ||
                        setBlocklenFails || dest % 4 != 0 || c.fatalErr || c.faults > old(c.faults)
    ensures len > 0 && (off % 512 != 0 || len > MAX_LOAD) ==> r == -1
    ensures len == 0 || dest == 0 ==> c.mem[..] == old(c.mem[..])
    ensures r > 0 && dest != 0 ==> mmcOffset + off + len <= |c.card| && c.mem[dest..dest + len] == c.card[mmcOffset + off..mmcOffset + off + len]
  {
    if len == 0 { return 0; }
    if off % 512 != 0 { return -1; }
    if len > MAX_LOAD { return -1; }
    if dest == 0 { return len; }
    SectorBytes(c, len);
    var ok := c.ReadData(dest, mmcOffset + off, len, setBlocklenFails);
    if !ok { return -1; }
    return len;
  }

  /** No length this accepts makes the sum of mmc_read_data wrap. */
  lemma LoadSectors(len: nat)
    requires len <= MAX_LOAD
    ensures (len + 512 - 1) % TWO32 / 512 == (len + 512 - 1) / 512
  {
    SectorsExact(len, 512);
  }

  lemma SectorBytes(c: Mmc, len: nat)
    requires c.Ready() && c.readBlLen == 512 && len <= MAX_LOAD
    ensures ByteOf(c.Sectors(len), 512) < len + 512
  {
    var k := (len + 511) / 512;
    assert c.Sectors(len) == k;
    ByteOf512(k);
  }

  /**
    bootfs_load_file: the first file of the name arrives in memory, byte for byte; a name no
    file has, or only files the writer had no slot for, gives -1.
   */
  method LoadFile(c: Mmc, mmcOffset: nat, meta: bytes, dest: nat, name: bytes, setBlocklenFails: bool,
                  ghost dev: bytes, ghost ds: seq<Data>, ghost confs: seq<Option<Conf>>, ghost files: seq<File>) returns (r: int)
    requires c.Ready() && c.readBlLen == 512 && mmcOffset % 512 == 0 && mmcOffset < TWO64 / 4
    requires Made(dev, ds, confs, files)
    requires OnCard(c.card, mmcOffset, dev) && |dev| >= META && meta == dev[..META]
    requires forall k :: 0 <= k < |ds| ==> dest + |ds[k].contents| + 512 <= c.mem.Length
    modifies c.mem, c.descs, c`requests, c`faults
    ensures var k := FirstFile(files, name); if k == |files| || k >= Capacity(ds, confs) then r == -1 else Delivered(ds, files, k, dest, r, c.mem)
    ensures var k := FirstFile(files, name); k < |files| && k < Capacity(ds, confs) && r == -1 ==>
      (files[k].data < |ds| && |ds[files[k].data].contents| > MAX_LOAD) || mmcOffset + |dev| > 512 * c.lba ||
      setBlocklenFails || dest % 4 != 0 || c.fatalErr || c.faults > old(c.faults)
  {
    hide FirstNamed, FilesIn, Blocks, BlocksAt, DataAt, Occurs, OkInput, OffsetOf, ConfRecs, FirstFile, Capacity;
    ghost var bs := Blocks(ds, confs, files);
    MetaBlocks(dev, ds, confs, files);
    var found := FindFile(meta, name, bs);
    ghost var k := FirstFile(files, name);
    Lookup(dev, ds, confs, files, name);
    if found.None? { return -1; }
    var rec := found.value;
    SameSlice(dev, rec.off, rec.len, ds[files[k].data].contents);
    r := LoadImage(c, mmcOffset, dest, rec.off, rec.len, setBlocklenFails);
    if r > 0 && dest != 0 {
      OccursIn(c.card, mmcOffset, dev, rec.off, ds[files[k].data].contents);
      SameSlice(c.card, mmcOffset + rec.off, rec.len, ds[files[k].data].contents);
    }
  }

  /** What the lookup of a name gives. */
  lemma Lookup(dev: bytes, ds: seq<Data>, confs: seq<Option<Conf>>, files: seq<File>, name: bytes)
    requires Made(dev, ds, confs, files)
    ensures var k, r := FirstFile(files, name), FirstNamed(FilesIn(Blocks(ds, confs, files)), name);
      if k == |files| || k >= Capacity(ds, confs) then r.None?
      else r.Some? && files[k].data < |ds| && r.value.off % 512 == 0 && r.value.off < TWO32 && r.value.len < TWO32 &&
           r.value.len == |ds[files[k].data].contents| && Occurs(dev, r.value.off, ds[files[k].data].contents)
  {
    hide FirstNamed, FilesIn, BlocksAt, Occurs, OffsetOf, FirstFile, Capacity;
    var k := FirstFile(files, name);
    if k == |files| {
      OtherNames(ds, confs, files, name);
    } else {
      FileRoundTrip(dev, ds, confs, files, k);
      RecFits(ds, confs, files, k);
    }
  }

  /** File k, or the part of it the result r speaks of, is at dest. */
  ghost predicate Delivered(ds: seq<Data>, files: seq<File>, k: nat, dest: nat, r: int, mem: array<byte>)
    reads mem
  {
    k < |files| && files[k].data < |ds| &&
    var c := ds[files[k].data].contents;
    && (r == -1 || r == |c|)
    && (r > 0 && dest != 0 ==> dest + |c| <= mem.Length && mem[dest..dest + |c|] == c)
  }

  ghost function FirstFile(files: seq<File>, name: bytes): (k: nat)
    ensures k <= |files| && (k < |files| ==> files[k].name == name) && forall j :: 0 <= j < k ==> files[j].name != name
  {
    if files == [] || files[0].name == name then 0 else 1 + FirstFile(files[1..], name)
  }

  lemma SameSlice(m: bytes, a: nat, n: nat, u: bytes)
    requires Occurs(m, a, u) && n == |u|
    ensures a + n <= |m| && m[a..a + n] == u
  {
  }

  /** The metadata blocks are in the part that is read. */
  lemma MetaBlocks(dev: bytes, ds: seq<Data>, confs: seq<Option<Conf>>, files: seq<File>)
    requires Made(dev, ds, confs, files) && |dev| >= META
    ensures |Blocks(ds, confs, files)| == SLOTS && BlocksAt(dev[..META], Blocks(ds, confs, files), SLOTS)
  {
    hide Blocks, BlocksAt, DataAt, Occurs;
    BlocksOk(ds, confs, files);
    PrefixBlocks(dev, Blocks(ds, confs, files));
  }

  lemma PrefixBlocks(dev: bytes, bs: seq<Blk>)
    requires BlocksAt(dev, bs, SLOTS) && |dev| >= META
    ensures BlocksAt(dev[..META], bs, SLOTS)
  {
    hide EncBlk, OkBlk, Occurs;
    assert dev[..META] == dev[0..META];
    forall i | 0 <= i < SLOTS
      ensures OkBlk(bs[i]) && Occurs(dev[..META], BLOCK * (i + 1), EncBlk(bs[i]))
    {
      OccursSlice(dev, 0, META, BLOCK * (i + 1), EncBlk(bs[i]));
    }
  }

  lemma RecFits(ds: seq<Data>, confs: seq<Option<Conf>>, files: seq<File>, k: nat)
    requires OkInput(ds, confs, files) && k < |files|
    requires forall j :: 0 <= j < k ==> files[j].name != files[k].name
    ensures files[k].data < |ds|
    ensures k < Capacity(ds, confs) ==> FirstNamed(FilesIn(Blocks(ds, confs, files)), files[k].name) == Some(FileRec(ds, files[k]))
    ensures var r := FileRec(ds, files[k]); r.off < TWO32 && r.len < TWO32
  {
    hide FilesIn, FirstNamed, OffsetOf, OkConf, Capacity;
    assert OkFile(ds, files[k]);
    FitsWord(ds, files[k].data);
    FoundWithin(ds, confs, files, k);
  }
}
