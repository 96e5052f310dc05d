/**
  The boot filesystem: the writer of conf.c, from the parsed configurations and file contents on,
  and the reader of storage.c.  Block 0 is the superblock, blocks 1 to 32 hold a configuration,
  a list of files or nothing, and the data follow.
 */
module Bootfs {
  import opened Wrappers
  import opened Bytes
  import opened Meaning

  const BLOCK: nat := 2048
  const SLOTS: nat := 32
  const META: nat := 33 * 2048
  const FILES_PER_BLOCK: nat := 51
  const IMAGES: nat := 8
  const MAX_NAME: nat := 31

  const SB_MAGIC: bytes := [0x3a, 0x42, 0x4f, 0x4f, 0x54, 0x46, 0x53, 0x3a]
  const CONF_MAGIC: bytes := [0x3a, 0x42, 0x46, 0x43, 0x4f, 0x4e, 0x46, 0x3a]
  const FILES_MAGIC: bytes := [0x3a, 0x42, 0x46, 0x49, 0x4c, 0x45, 0x53, 0x3a]

  // ------------------------------------------------------------------ what the configuration files say

  /** A data file in the list: its resolved path and what is written of it. */
  datatype Data = Data(path: bytes, contents: bytes)
  /** An image or a file refers to an entry of the data list. */
  datatype Image = Image(kind: nat, data: nat)
  datatype Conf = Conf(name: bytes, bootargs: bytes, images: seq<Image>)
  datatype File = File(name: bytes, data: nat)

  /** write_fd_checked skips the header of a uImage. */
  function Payload(f: bytes): bytes {
    if |f| >= 64 && f[..4] == [0x27, 0x05, 0x19, 0x56] then f[64..] else f
  }

  class Builder {
    var dataList: seq<Data>

    constructor ()
      ensures dataList == []
    {
      dataList := [];
    }

    /** data_add_file: the place of a path in the list; each path is there once. */
    method DataAddFile(path: bytes, contents: bytes) returns (d: nat)
      requires forall i, j :: 0 <= i < j < |dataList| ==> dataList[i].path != dataList[j].path
      modifies this
      ensures forall i, j :: 0 <= i < j < |dataList| ==> dataList[i].path != dataList[j].path
      ensures d < |dataList| && dataList[d].path == path && old(dataList) <= dataList
      ensures |dataList| <= |old(dataList)| + 1 && (|dataList| > |old(dataList)| ==> dataList[d].contents == Payload(contents))
      ensures (exists i :: 0 <= i < |old(dataList)| && old(dataList)[i].path == path) ==> dataList == old(dataList)
    {
      d := 0;
      while d < |dataList|
        invariant d <= |dataList| && forall i :: 0 <= i < d ==> dataList[i].path != path
      {
        if path == dataList[d].path { return; }
        d := d + 1;
      }
      dataList := dataList + [Data(path, Payload(contents))];
    }
  }

  // ------------------------------------------------------------------ where the data go

  function RoundUp(x: nat): (r: nat)
    ensures x <= r < x + 512 && r % 512 == 0
  {
    if x % 512 != 0 then x + (512 - x % 512) else x
  }

  /** The offset of entry k of the data list. */
  function OffsetOf(ds: seq<Data>, k: nat): (r: nat)
    requires k <= |ds|
    ensures r % 512 == 0 && r >= META
  {
    if k == 0 then META else RoundUp(OffsetOf(ds, k - 1) + |ds[k - 1].contents|)
  }

  /** Extents lie past the metadata, are aligned, and do not overlap. */
  lemma {:induction false} Disjoint(ds: seq<Data>, i: nat, j: nat)
    requires i < j <= |ds|
    ensures META <= OffsetOf(ds, i) && OffsetOf(ds, i) % 512 == 0 && OffsetOf(ds, i) + |ds[i].contents| <= OffsetOf(ds, j)
    decreases j
  {
    if i + 1 < j {
      Disjoint(ds, i, j - 1);
    }
  }

  /** The first one begins right behind the metadata, and less than a sector is left between two of them. */
  lemma NoGaps(ds: seq<Data>, i: nat)
    requires i < |ds|
    ensures OffsetOf(ds, 0) == 33 * 2048 && OffsetOf(ds, i + 1) < OffsetOf(ds, i) + |ds[i].contents| + 512
  {
  }

  /** The data are in place, from entry 0 up to entry k. */
  ghost predicate DataAt(dev: bytes, ds: seq<Data>, k: nat) {
    k <= |ds| && forall i :: 0 <= i < k ==> Occurs(dev, OffsetOf(ds, i), ds[i].contents)
  }

  lemma DataStep(dev: bytes, ds: seq<Data>, k: nat)
    requires DataAt(dev, ds, k) && k < |ds| && OffsetOf(ds, k) + |ds[k].contents| <= |dev|
    ensures DataAt(Written(dev, OffsetOf(ds, k), ds[k].contents), ds, k + 1)
  {
    hide Written, Occurs;
    forall i | 0 <= i < k + 1
      ensures Occurs(Written(dev, OffsetOf(ds, k), ds[k].contents), OffsetOf(ds, i), ds[i].contents)
    {
      if i < k {
        Disjoint(ds, i, k);
        WrittenKeeps(dev, OffsetOf(ds, k), ds[k].contents, OffsetOf(ds, i), ds[i].contents);
      } else {
        WrittenHolds(dev, OffsetOf(ds, k), ds[k].contents);
      }
    }
  }

  /** Writing the metadata leaves the data alone. */
  lemma DataKept(dev: bytes, ds: seq<Data>, at: nat, v: bytes)
    requires DataAt(dev, ds, |ds|) && at + |v| <= META && at + |v| <= |dev|
    ensures DataAt(Written(dev, at, v), ds, |ds|)
  {
    hide Written, Occurs, OffsetOf;
    forall i | 0 <= i < |ds|
      ensures Occurs(Written(dev, at, v), OffsetOf(ds, i), ds[i].contents)
    {
      WrittenKeeps(dev, at, v, OffsetOf(ds, i), ds[i].contents);
    }
  }

  // ------------------------------------------------------------------ the metadata blocks

  /** A file or image record: what is written of it. */
  datatype Rec = Rec(name: bytes, off: nat, len: nat)
  datatype Ref = Ref(kind: nat, off: nat, len: nat)
  datatype Blk = ConfBlk(name: bytes, bootargs: bytes, images: seq<Ref>) | FilesBlk(recs: seq<Rec>) | NoBlk

  /** snprintf into a field of n bytes. */
  function Field(s: bytes, n: nat): (r: bytes)
    requires n > 0
    ensures |r| == n
  {
    if |s| < n then s + Zeros(n - |s|) else s[..n - 1] + [0]
  }

  function EncRec(r: Rec): (e: bytes)
    ensures |e| == 40
  {
    Field(r.name, 32) + BE32(r.off) + BE32(r.len)
  }

  function EncRecs(rs: seq<Rec>): (e: bytes)
    ensures |e| == 40 * |rs|
  {
    if rs == [] then [] else EncRec(rs[0]) + EncRecs(rs[1..])
  }

  function EncRef(r: Ref): (e: bytes)
    ensures |e| == 12
  {
    BE32(r.kind) + BE32(r.off) + BE32(r.len)
  }

  function EncRefs(rs: seq<Ref>): (e: bytes)
    ensures |e| == 12 * |rs|
  {
    if rs == [] then [] else EncRef(rs[0]) + EncRefs(rs[1..])
  }

  predicate OkBlk(b: Blk) {
    match b
    case ConfBlk(_, _, images) => |images| <= IMAGES && forall i :: 0 <= i < |images| ==> 0 < images[i].kind < 256 && images[i].off < TWO32 && images[i].len < TWO32
    case FilesBlk(recs) => |recs| <= FILES_PER_BLOCK && forall i :: 0 <= i < |recs| ==> OkRec(recs[i])
    case NoBlk => true
  }

  predicate OkRec(r: Rec) {
    r.name != [] && NoNul(r.name) && |r.name| <= MAX_NAME && r.off < TWO32 && r.len < TWO32
  }

  function EncBlk(b: Blk): (e: bytes)
    requires OkBlk(b)
    ensures |e| == BLOCK
  {
    match b
    case ConfBlk(name, bootargs, images) =>
      CONF_MAGIC + EncRefs(images) + Zeros(12 * (IMAGES - |images|)) + Field(bootargs, BLOCK - 8 - 12 * IMAGES - 96) + Field(name, 96)
    case FilesBlk(recs) => FILES_MAGIC + EncRecs(recs) + Zeros(40 * (FILES_PER_BLOCK - |recs|))
    case NoBlk => Zeros(BLOCK)
  }

  /** The blocks written: files fill the slots no configuration uses, 51 at a time. */
  function Layout(cs: seq<Option<Blk>>, rs: seq<Rec>): seq<Blk> {
    if cs == [] then []
    else if cs[0].Some? then [cs[0].value] + Layout(cs[1..], rs)
    else if rs != [] then [FilesBlk(Take(rs, FILES_PER_BLOCK))] + Layout(cs[1..], Later(rs))
    else [NoBlk] + Layout(cs[1..], rs)
  }

  /** The files a list of blocks names, in order. */
  function FilesIn(bs: seq<Blk>): seq<Rec> {
    if bs == [] then [] else (if bs[0].FilesBlk? then bs[0].recs else []) + FilesIn(bs[1..])
  }

  function FreeSlots(cs: seq<Option<Blk>>): nat {
    if cs == [] then 0 else (if cs[0].None? then 1 else 0) + FreeSlots(cs[1..])
  }

  /** The first n of a list, or all there are. */
  function Take<X>(s: seq<X>, n: nat): (r: seq<X>)
    ensures |s| <= n ==> r == s
  {
    if |s| <= n then s else s[..n]
  }

  lemma TakeSplit<X>(s: seq<X>, k: nat, m: nat)
    ensures Take(s, k + m) == Take(s, k) + Take(if |s| <= k then [] else s[k..], m)
  {
  }

  /** What is left after one block of files. */
  function Later(rs: seq<Rec>): seq<Rec> {
    if |rs| <= FILES_PER_BLOCK then [] else rs[FILES_PER_BLOCK..]
  }

  /** Every file is recorded, in order, as far as the free slots go. */
  lemma {:induction false} LayoutFiles(cs: seq<Option<Blk>>, rs: seq<Rec>)
    requires forall i :: 0 <= i < |cs| && cs[i].Some? ==> cs[i].value.ConfBlk?
    ensures |Layout(cs, rs)| == |cs| && FilesIn(Layout(cs, rs)) == Take(rs, FILES_PER_BLOCK * FreeSlots(cs))
  {
    hide Take;
    if cs == [] {
      assert Take(rs, 0) == [] by { TakeNone(rs); }
    } else {
      assert cs[0].Some? ==> cs[0].value.ConfBlk?;
      if cs[0].Some? {
        LayoutFiles(cs[1..], rs);
      } else {
        LayoutFiles(cs[1..], Later(rs));
        TakeSplit(rs, FILES_PER_BLOCK, FILES_PER_BLOCK * FreeSlots(cs[1..]));
        NoFiles(rs, FILES_PER_BLOCK * FreeSlots(cs[1..]));
      }
    }
  }

  lemma TakeNone(rs: seq<Rec>)
    ensures Take(rs, 0) == []
  {
  }

  lemma NoFiles(rs: seq<Rec>, n: nat)
    ensures rs == [] ==> Take(rs, FILES_PER_BLOCK) == [] && Take(Later(rs), n) == []
  {
  }

  lemma {:induction false} LayoutOk(cs: seq<Option<Blk>>, rs: seq<Rec>)
    requires forall i :: 0 <= i < |cs| && cs[i].Some? ==> OkBlk(cs[i].value)
    requires forall i :: 0 <= i < |rs| ==> OkRec(rs[i])
    ensures |Layout(cs, rs)| == |cs| && forall i :: 0 <= i < |cs| ==> OkBlk(Layout(cs, rs)[i])
    ensures forall i :: 0 <= i < |cs| && cs[i].Some? ==> Layout(cs, rs)[i] == cs[i].value
  {
    if cs != [] {
      var rest := if cs[0].Some? || rs == [] then rs else Later(rs);
      LayoutOk(cs[1..], rest);
      var l := Layout(cs, rs);
      assert l[1..] == Layout(cs[1..], rest);
      forall i | 0 <= i < |cs|
        ensures OkBlk(l[i]) && (cs[i].Some? ==> l[i] == cs[i].value)
      {
        if i > 0 {
          assert l[i] == l[1..][i - 1] && cs[i] == cs[1..][i - 1];
        }
      }
    }
  }

  /** Blocks bs are on the device from slot i on. */
  ghost predicate BlocksAt(dev: bytes, bs: seq<Blk>, k: nat) {
    k <= |bs| && forall i :: 0 <= i < k ==> OkBlk(bs[i]) && Occurs(dev, BLOCK * (i + 1), EncBlk(bs[i]))
  }

  lemma BlockStep(dev: bytes, bs: seq<Blk>, k: nat)
    requires BlocksAt(dev, bs, k) && k < |bs| && OkBlk(bs[k]) && BLOCK * (k + 2) <= |dev|
    ensures BlocksAt(Written(dev, BLOCK * (k + 1), EncBlk(bs[k])), bs, k + 1)
  {
    hide Written, Occurs, EncBlk, OkBlk;
    forall i | 0 <= i < k + 1
      ensures OkBlk(bs[i]) && Occurs(Written(dev, BLOCK * (k + 1), EncBlk(bs[k])), BLOCK * (i + 1), EncBlk(bs[i]))
    {
      if i < k {
        WrittenKeeps(dev, BLOCK * (k + 1), EncBlk(bs[k]), BLOCK * (i + 1), EncBlk(bs[i]));
      } else {
        WrittenHolds(dev, BLOCK * (k + 1), EncBlk(bs[k]));
      }
    }
  }

  // ------------------------------------------------------------------ the writer

  /** What is recorded of a configuration, an image and a file. */
  function ConfRec(ds: seq<Data>, c: Conf): Blk
    requires OkConf(ds, c)
  {
    ConfBlk(c.name, c.bootargs, seq(|c.images|, i requires 0 <= i < |c.images| => ImageRef(ds, c.images[i])))
  }

  function ImageRef(ds: seq<Data>, im: Image): Ref
    requires im.data < |ds|
  {
    Ref(im.kind, OffsetOf(ds, im.data), |ds[im.data].contents|)
  }

  function FileRec(ds: seq<Data>, f: File): Rec
    requires f.data < |ds|
  {
    Rec(f.name, OffsetOf(ds, f.data), |ds[f.data].contents|)
  }

  predicate OkConf(ds: seq<Data>, c: Conf) {
    |c.images| <= IMAGES && forall i :: 0 <= i < |c.images| ==> 0 < c.images[i].kind < 256 && c.images[i].data < |ds|
  }

  predicate OkFile(ds: seq<Data>, f: File) {
    f.name != [] && NoNul(f.name) && |f.name| <= MAX_NAME && f.data < |ds|
  }

  /** What parsing guarantees, and a size below 4 GiB. */
  ghost predicate OkInput(ds: seq<Data>, confs: seq<Option<Conf>>, files: seq<File>) {
    && |confs| == SLOTS && OffsetOf(ds, |ds|) < TWO32
    && (forall i :: 0 <= i < |confs| && confs[i].Some? ==> OkConf(ds, confs[i].value))
    && (forall i :: 0 <= i < |files| ==> OkFile(ds, files[i]))
  }

  ghost function ConfRecs(ds: seq<Data>, confs: seq<Option<Conf>>): seq<Option<Blk>>
    requires forall i :: 0 <= i < |confs| && confs[i].Some? ==> OkConf(ds, confs[i].value)
  {
    seq(|confs|, i requires 0 <= i < |confs| => if confs[i].Some? then Some(ConfRec(ds, confs[i].value)) else None)
  }

  ghost function FileRecs(ds: seq<Data>, files: seq<File>): (r: seq<Rec>)
    requires forall i :: 0 <= i < |files| ==> OkFile(ds, files[i])
    ensures |r| == |files|
  {
    seq(|files|, i requires 0 <= i < |files| => assert OkFile(ds, files[i]); FileRec(ds, files[i]))
  }

  /** The blocks of the filesystem. */
  ghost function Blocks(ds: seq<Data>, confs: seq<Option<Conf>>, files: seq<File>): (r: seq<Blk>)
    requires OkInput(ds, confs, files)
  {
    Layout(ConfRecs(ds, confs), FileRecs(ds, files))
  }

  lemma FitsWord(ds: seq<Data>, k: nat)
    requires k < |ds| && OffsetOf(ds, |ds|) < TWO32
    ensures OffsetOf(ds, k) < TWO32 && |ds[k].contents| < TWO32
  {
    Disjoint(ds, k, |ds|);
  }

  lemma BlocksOk(ds: seq<Data>, confs: seq<Option<Conf>>, files: seq<File>)
    requires OkInput(ds, confs, files)
    ensures var cs, rs := ConfRecs(ds, confs), FileRecs(ds, files);
      && (forall i :: 0 <= i < |cs| && cs[i].Some? ==> OkBlk(cs[i].value) && cs[i].value.ConfBlk?)
      && (forall i :: 0 <= i < |rs| ==> OkRec(rs[i]))
    ensures |Blocks(ds, confs, files)| == SLOTS && forall i :: 0 <= i < SLOTS ==> OkBlk(Blocks(ds, confs, files)[i])
    ensures forall i :: 0 <= i < SLOTS && confs[i].Some? ==> Blocks(ds, confs, files)[i] == ConfRec(ds, confs[i].value)
  {
    hide OffsetOf;
    var cs, rs := ConfRecs(ds, confs), FileRecs(ds, files);
    forall i | 0 <= i < |cs| && cs[i].Some?
      ensures OkBlk(cs[i].value)
    {
      var c := confs[i].value;
      forall j | 0 <= j < |c.images|
        ensures OffsetOf(ds, c.images[j].data) < TWO32 && |ds[c.images[j].data].contents| < TWO32
      {
        FitsWord(ds, c.images[j].data);
      }
    }
    forall i | 0 <= i < |rs|
      ensures OkRec(rs[i])
    {
      FitsWord(ds, files[i].data);
    }
    LayoutOk(cs, rs);
  }

  /** The superblock. */
  function SuperBlock(deviceId: bytes): (r: bytes)
    ensures |r| == BLOCK
  {
    SB_MAGIC + BE32(1) + BE32(0) + Field(deviceId, 32) + Zeros(BLOCK - 8 - 4 - 4 - 32)
  }

  /** The filesystem is on the device: superblock, blocks and data. */
  ghost predicate Made(dev: bytes, ds: seq<Data>, confs: seq<Option<Conf>>, files: seq<File>) {
    && OkInput(ds, confs, files) && Occurs(dev, 0, SB_MAGIC)
    && BlocksAt(dev, Blocks(ds, confs, files), SLOTS) && DataAt(dev, ds, |ds|)
  }

  /** The loop of main that writes the data; what is already in the metadata, u, stays. */
  method WriteData(dev: array<byte>, ds: seq<Data>, ghost u: bytes) returns (offs: seq<nat>)
    requires OffsetOf(ds, |ds|) <= dev.Length && OffsetOf(ds, |ds|) < TWO32 && Occurs(dev[..], 0, u) && |u| <= META
    modifies dev
    ensures |offs| == |ds| && forall i :: 0 <= i < |ds| ==> offs[i] == OffsetOf(ds, i)
    ensures DataAt(dev[..], ds, |ds|) && Occurs(dev[..], 0, u)
  {
    hide Written, Occurs, RoundUp, OffsetOf, DataAt;
    var offI := BLOCK * 33;
    offs := [];
    FirstOffset(dev[..], ds);
    for k := 0 to |ds|
      invariant offI == OffsetOf(ds, k) && |offs| == k && forall i :: 0 <= i < k ==> offs[i] == OffsetOf(ds, i)
      invariant DataAt(dev[..], ds, k) && Occurs(dev[..], 0, u)
    {
      ghost var m := dev[..];
      Disjoint(ds, k, |ds|);
      FitsWord(ds, k);
      DataStep(m, ds, k);
      NextOffset(ds, k);
      WrittenKeeps(m, offI, ds[k].contents, 0, u);
      offs := offs + [offI % TWO32];
      Store(dev, offI, ds[k].contents);
      offI := RoundUp(offI + |ds[k].contents|);
    }
  }

  lemma FirstOffset(m: bytes, ds: seq<Data>)
    ensures OffsetOf(ds, 0) == META && DataAt(m, ds, 0)
  {
  }

  lemma NextOffset(ds: seq<Data>, k: nat)
    requires k < |ds|
    ensures OffsetOf(ds, k + 1) == RoundUp(OffsetOf(ds, k) + |ds[k].contents|)
  {
  }

  /** The block of configuration i. */
  method BuildConf(ds: seq<Data>, offs: seq<nat>, c: Conf) returns (b: Blk)
    requires OkConf(ds, c) && |offs| == |ds| && forall i :: 0 <= i < |ds| ==> offs[i] == OffsetOf(ds, i)
    ensures b == ConfRec(ds, c)
  {
    var images: seq<Ref> := [];
    for i := 0 to |c.images|
      invariant |images| == i && forall j :: 0 <= j < i ==> images[j] == ImageRef(ds, c.images[j])
    {
      var im := c.images[i];
      images := images + [Ref(im.kind, offs[im.data], |ds[im.data].contents|)];
    }
    b := ConfBlk(c.name, c.bootargs, images);
    assert images == ConfRec(ds, c).images;
  }

  /** A block with the files from number `written` on. */
  method BuildFiles(ds: seq<Data>, offs: seq<nat>, files: seq<File>, written: nat) returns (b: Blk, now: nat)
    requires written < |files| && forall i :: 0 <= i < |files| ==> OkFile(ds, files[i])
    requires |offs| == |ds| && forall i :: 0 <= i < |ds| ==> offs[i] == OffsetOf(ds, i)
    ensures b == FilesBlk(Take(FileRecs(ds, files)[written..], FILES_PER_BLOCK))
    ensures now <= |files| && FileRecs(ds, files)[now..] == Later(FileRecs(ds, files)[written..])
  {
    ghost var rs := FileRecs(ds, files);
    var rem := |files| - written;
    rem := if rem > 51 then 51 else rem;
    var recs: seq<Rec> := [];
    now := written;
    for i := 0 to rem
      invariant now == written + i && |recs| == i && forall j :: 0 <= j < i ==> recs[j] == rs[written + j]
    {
      var f := files[now];
      assert OkFile(ds, f);
      recs := recs + [Rec(f.name, offs[f.data], |ds[f.data].contents|)];
      now := now + 1;
    }
    b := FilesBlk(recs);
    assert recs == Take(rs[written..], FILES_PER_BLOCK);
    assert rs[now..] == Later(rs[written..]);
  }

  /** main: the whole filesystem. */
  method WriteFs(dev: array<byte>, deviceId: bytes, ds: seq<Data>, confs: seq<Option<Conf>>, files: seq<File>)
    requires OkInput(ds, confs, files) && OffsetOf(ds, |ds|) <= dev.Length
    modifies dev
    ensures Made(dev[..], ds, confs, files)
    ensures dev[..8] == SB_MAGIC && U32(dev[..], 8) == 1 && U32(dev[..], 12) == 0
    ensures NoNul(deviceId) ==> StrAt(dev[..], 16) == Clipped(deviceId, 32)
  {
    hide Written, Occurs, OffsetOf, EncBlk, OkBlk, Layout, SuperBlock, BlocksAt, DataAt, ConfRec, FileRec, Take, Later, StrAt, U32;
    ghost var sb := SuperBlock(deviceId);
    BlocksOk(ds, confs, files);
    ghost var bs, cs, rs := Blocks(ds, confs, files), ConfRecs(ds, confs), FileRecs(ds, files);
    ghost var m := dev[..];
    Store(dev, 0, SuperBlock(deviceId));
    WrittenHolds(m, 0, sb);
    var offs := WriteData(dev, ds, sb);
    var written := 0;
    NoBlocks(dev[..], bs);
    assert cs[0..] == cs && rs[0..] == rs;
    for i := 0 to SLOTS
      invariant 0 <= written <= |files| && bs[i..] == Layout(cs[i..], rs[written..])
      invariant BlocksAt(dev[..], bs, i) && DataAt(dev[..], ds, |ds|) && Occurs(dev[..], 0, sb)
    {
      LayoutNext(cs, rs[written..], i);
      var b := NoBlk;
      if confs[i].Some? {
        b := BuildConf(ds, offs, confs[i].value);
      } else if written < |files| {
        b, written := BuildFiles(ds, offs, files, written);
      }
      assert b == bs[i..][0] == bs[i];
      assert bs[i + 1..] == bs[i..][1..];
      m := dev[..];
      BlockStep(m, bs, i);
      DataKept(m, ds, BLOCK * (i + 1), EncBlk(b));
      WrittenKeeps(m, BLOCK * (i + 1), EncBlk(b), 0, sb);
      Store(dev, BLOCK * (i + 1), EncBlk(b));
    }
    SuperReads(dev[..], deviceId);
  }

  /** The superblock reads back: magic, version, default configuration and device id. */
  lemma SuperReads(m: bytes, deviceId: bytes)
    requires Occurs(m, 0, SuperBlock(deviceId))
    ensures Occurs(m, 0, SB_MAGIC) && BLOCK <= |m| && m[..8] == SB_MAGIC && U32(m, 8) == 1 && U32(m, 12) == 0
    ensures NoNul(deviceId) ==> StrAt(m, 16) == Clipped(deviceId, 32)
  {
    hide Field, Zeros, BE32, StrAt, U32, Clipped, Occurs;
    ThreeParts(m, 0, SB_MAGIC + BE32(1) + BE32(0), Field(deviceId, 32), Zeros(BLOCK - 8 - 4 - 4 - 32));
    ThreeParts(m, 0, SB_MAGIC, BE32(1), BE32(0));
    SliceIs(m, 0, SB_MAGIC);
    U32Of(m, 8, 1);
    U32Of(m, 12, 0);
    if NoNul(deviceId) {
      FieldAt(m, 16, deviceId, 32);
    }
  }

  lemma NoBlocks(m: bytes, bs: seq<Blk>)
    ensures BlocksAt(m, bs, 0)
  {
  }

  lemma LayoutNext(cs: seq<Option<Blk>>, rs: seq<Rec>, i: nat)
    requires i < |cs|
    ensures var l := Layout(cs[i..], rs);
      if cs[i].Some? then l == [cs[i].value] + Layout(cs[i + 1..], rs)
      else if rs != [] then l == [FilesBlk(Take(rs, FILES_PER_BLOCK))] + Layout(cs[i + 1..], Later(rs))
      else l == [NoBlk] + Layout(cs[i + 1..], rs)
  {
    assert cs[i..][1..] == cs[i + 1..];
  }

  // ------------------------------------------------------------------ the reader

  /** The first record of a name. */
  function FirstNamed(rs: seq<Rec>, name: bytes): Option<Rec> {
    if rs == [] then None else if rs[0].name == name then Some(rs[0]) else FirstNamed(rs[1..], name)
  }

  lemma {:induction false} EncRecsAt(m: bytes, at: nat, rs: seq<Rec>, j: nat)
    requires Occurs(m, at, EncRecs(rs)) && j < |rs|
    ensures Occurs(m, at + 40 * j, EncRec(rs[j]))
    decreases j
  {
    hide EncRec;
    OccursCat(m, at, EncRec(rs[0]), EncRecs(rs[1..]));
    if j > 0 {
      EncRecsAt(m, at + 40, rs[1..], j - 1);
    }
  }

  /** A record reads back. */
  lemma RecordAt(m: bytes, at: nat, r: Rec)
    requires OkRec(r) && Occurs(m, at, EncRec(r))
    ensures at + 40 <= |m| && m[at] != 0 && StrAt(m, at) == r.name && U32(m, at + 32) == r.off && U32(m, at + 36) == r.len
  {
    hide BE32, StrAt, Field, U32;
    OccursCat(m, at, Field(r.name, 32) + BE32(r.off), BE32(r.len));
    OccursCat(m, at, Field(r.name, 32), BE32(r.off));
    U32Of(m, at + 32, r.off);
    U32Of(m, at + 36, r.len);
    NameField(m, at, r.name);
  }

  /** What snprintf keeps of a string in a field of n bytes. */
  function Clipped(s: bytes, n: nat): (r: bytes)
    requires n > 0
    ensures r <= s && |r| < n && (|s| < n ==> r == s) && (|s| >= n ==> |r| == n - 1)
  {
    if |s| < n then s else s[..n - 1]
  }

  /** A string in its field. */
  lemma FieldAt(m: bytes, at: nat, s: bytes, n: nat)
    requires n > 0 && NoNul(s) && Occurs(m, at, Field(s, n))
    ensures at + n <= |m| && StrAt(m, at) == Clipped(s, n)
  {
    hide StrAt, Zeros;
    var c := Clipped(s, n);
    assert Field(s, n) == c + Zeros(n - |c|);
    OccursCat(m, at, c, Zeros(n - |c|));
    OccursAt(m, at + |c|, Zeros(n - |c|), 0);
    HoldsStrAt(m, at, c);
  }

  /** A name in its field. */
  lemma NameField(m: bytes, at: nat, name: bytes)
    requires name != [] && NoNul(name) && |name| <= MAX_NAME && Occurs(m, at, Field(name, 32))
    ensures at + 32 <= |m| && m[at] != 0 && StrAt(m, at) == name
  {
    hide StrAt, Zeros;
    FieldAt(m, at, name, 32);
    OccursAt(m, at, Field(name, 32), 0);
  }

  lemma ThreeParts(m: bytes, at: nat, x: bytes, y: bytes, z: bytes)
    requires Occurs(m, at, x + y + z)
    ensures at + |x + y + z| <= |m|
    ensures Occurs(m, at, x) && Occurs(m, at + |x|, y) && Occurs(m, at + |x| + |y|, z)
  {
    OccursCat(m, at, x + y, z);
    OccursCat(m, at, x, y);
  }

  lemma SliceIs(m: bytes, at: nat, x: bytes)
    requires Occurs(m, at, x)
    ensures at + |x| <= |m| && m[at..at + |x|] == x
  {
  }

  lemma FilesAre(recs: seq<Rec>)
    requires OkBlk(FilesBlk(recs))
    ensures |recs| <= FILES_PER_BLOCK && |FILES_MAGIC| == 8
    ensures EncBlk(FilesBlk(recs)) == FILES_MAGIC + EncRecs(recs) + Zeros(40 * (FILES_PER_BLOCK - |recs|))
  {
    hide EncRecs, Zeros, OkRec;
  }

  /** The parts of a block of files. */
  lemma FilesParts(m: bytes, at: nat, recs: seq<Rec>)
    requires OkBlk(FilesBlk(recs)) && Occurs(m, at, EncBlk(FilesBlk(recs)))
    ensures at + BLOCK <= |m| && m[at..at + 8] == FILES_MAGIC && |recs| <= FILES_PER_BLOCK
    ensures Occurs(m, at + 8, EncRecs(recs)) && Occurs(m, at + 8 + 40 * |recs|, Zeros(40 * (FILES_PER_BLOCK - |recs|)))
  {
    hide EncRecs, Zeros, OkRec, Occurs, EncBlk, OkBlk;
    FilesAre(recs);
    ThreeParts(m, at, FILES_MAGIC, EncRecs(recs), Zeros(40 * (FILES_PER_BLOCK - |recs|)));
    SliceIs(m, at, FILES_MAGIC);
  }

  /** What the reader finds in a block of files: its records, and then an empty name. */
  lemma FilesBlockAt(m: bytes, at: nat, recs: seq<Rec>, j: nat)
    requires OkBlk(FilesBlk(recs)) && Occurs(m, at, EncBlk(FilesBlk(recs))) && j < FILES_PER_BLOCK
    ensures at + BLOCK <= |m| && m[at..at + 8] == FILES_MAGIC
    ensures var p := at + 8 + 40 * j;
      if j < |recs| then m[p] != 0 && StrAt(m, p) == recs[j].name && U32(m, p + 32) == recs[j].off && U32(m, p + 36) == recs[j].len
      else m[p] == 0
  {
    hide EncRec, EncRecs, EncBlk, StrAt, U32, Zeros, Occurs, OkRec;
    FilesParts(m, at, recs);
    if j < |recs| {
      EncRecsAt(m, at + 8, recs, j);
      assert OkRec(recs[j]);
      RecordAt(m, at + 8 + 40 * j, recs[j]);
    } else {
      OccursAt(m, at + 8 + 40 * |recs|, Zeros(40 * (FILES_PER_BLOCK - |recs|)), 40 * (j - |recs|));
    }
  }

  lemma NotFiles(m: bytes, at: nat, b: Blk)
    requires OkBlk(b) && !b.FilesBlk? && Occurs(m, at, EncBlk(b))
    ensures at + BLOCK <= |m| && m[at..at + 8] != FILES_MAGIC
  {
    hide EncRefs, Field, Zeros;
    OccursAt(m, at, EncBlk(b), 3);
    assert EncBlk(b)[3] != FILES_MAGIC[3];
    assert m[at..at + 8][3] == m[at + 3];
  }

  /** The lookup of bootfs_load_file: the first file of that name in the metadata blocks. */
  method FindFile(meta: bytes, name: bytes, ghost bs: seq<Blk>) returns (r: Option<Rec>)
    requires |bs| == SLOTS && BlocksAt(meta, bs, SLOTS) && |meta| == META
    ensures r == FirstNamed(FilesIn(bs), name)
  {
    hide Occurs, EncBlk, FirstNamed, FilesIn, StrAt, U32;
    assert bs[0..] == bs;
    for i := 0 to SLOTS
      invariant FirstNamed(FilesIn(bs), name) == FirstNamed(FilesIn(bs[i..]), name)
    {
      var at := BLOCK * (i + 1);
      FilesNext(bs, i);
      if meta[at..at + 8] == FILES_MAGIC {
        if !bs[i].FilesBlk? {
          NotFiles(meta, at, bs[i]);
        }
        ghost var recs, rest := bs[i].recs, FilesIn(bs[i + 1..]);
        assert recs[0..] == recs;
        var j := 0;
        while j < FILES_PER_BLOCK
          invariant j <= |recs| && FirstNamed(FilesIn(bs), name) == FirstNamed(recs[j..] + rest, name)
        {
          FilesBlockAt(meta, at, recs, j);
          var p := at + 8 + 40 * j;
          if meta[p] == 0 { break; }
          FirstNext(recs, rest, j, name);
          if StrAt(meta, p) == name {
            return Some(Rec(name, U32(meta, p + 32), U32(meta, p + 36)));
          }
          j := j + 1;
        }
        AllSeen(meta, at, recs, j, rest);
      } else if bs[i].FilesBlk? {
        FilesBlockAt(meta, at, bs[i].recs, 0);
      }
    }
    NoneLeft(bs, name);
    return None;
  }

  lemma NoneLeft(bs: seq<Blk>, name: bytes)
    requires |bs| == SLOTS
    ensures FirstNamed(FilesIn(bs[SLOTS..]), name) == None
  {
  }

  lemma FilesNext(bs: seq<Blk>, i: nat)
    requires i < |bs|
    ensures FilesIn(bs[i..]) == if bs[i].FilesBlk? then bs[i].recs + FilesIn(bs[i + 1..]) else FilesIn(bs[i + 1..])
  {
    assert bs[i..][1..] == bs[i + 1..];
  }

  lemma FirstNext(recs: seq<Rec>, rest: seq<Rec>, j: nat, name: bytes)
    requires j < |recs|
    ensures FirstNamed(recs[j..] + rest, name) == if recs[j].name == name then Some(recs[j]) else FirstNamed(recs[j + 1..] + rest, name)
  {
    assert (recs[j..] + rest)[1..] == recs[j + 1..] + rest;
  }

  lemma AllSeen(meta: bytes, at: nat, recs: seq<Rec>, j: nat, rest: seq<Rec>)
    requires OkBlk(FilesBlk(recs)) && Occurs(meta, at, EncBlk(FilesBlk(recs))) && j <= |recs|
    requires at + BLOCK <= |meta| && (j >= FILES_PER_BLOCK || meta[at + 8 + 40 * j] == 0)
    ensures recs[j..] + rest == rest
  {
    if j < FILES_PER_BLOCK {
      FilesBlockAt(meta, at, recs, j);
    }
  }

  // ------------------------------------------------------------------ round trips

  lemma {:induction false} FirstIs(rs: seq<Rec>, k: nat)
    requires k < |rs| && forall j :: 0 <= j < k ==> rs[j].name != rs[k].name
    ensures FirstNamed(rs, rs[k].name) == Some(rs[k])
    decreases k
  {
    if k > 0 {
      assert rs[0].name != rs[k].name;
      FirstIs(rs[1..], k - 1);
    }
  }

  lemma {:induction false} FirstNone(rs: seq<Rec>, name: bytes)
    requires forall j :: 0 <= j < |rs| ==> rs[j].name != name
    ensures FirstNamed(rs, name) == None
  {
    if rs != [] {
      assert rs[0].name != name;
      FirstNone(rs[1..], name);
    }
  }

  /** How many files the free slots hold. */
  ghost function Capacity(ds: seq<Data>, confs: seq<Option<Conf>>): nat
    requires forall i :: 0 <= i < |confs| && confs[i].Some? ==> OkConf(ds, confs[i].value)
  {
    FILES_PER_BLOCK * FreeSlots(ConfRecs(ds, confs))
  }

  /** The files found are those given, as far as the slots go. */
  lemma AllFiles(ds: seq<Data>, confs: seq<Option<Conf>>, files: seq<File>)
    requires OkInput(ds, confs, files)
    ensures FilesIn(Blocks(ds, confs, files)) == Take(FileRecs(ds, files), Capacity(ds, confs))
  {
    hide FileRec, ConfRec, OffsetOf, OkConf, OkFile;
    BlocksOk(ds, confs, files);
    LayoutFiles(ConfRecs(ds, confs), FileRecs(ds, files));
  }

  /** The first file of a name is found exactly if the slots go that far, and then its extent holds its contents. */
  lemma FileRoundTrip(dev: bytes, ds: seq<Data>, confs: seq<Option<Conf>>, files: seq<File>, k: nat)
    requires Made(dev, ds, confs, files)
    requires k < |files| && forall j :: 0 <= j < k ==> files[j].name != files[k].name
    ensures files[k].data < |ds|
    ensures var c := ds[files[k].data].contents; var r := FirstNamed(FilesIn(Blocks(ds, confs, files)), files[k].name);
      if k < Capacity(ds, confs) then r.Some? && r.value.len == |c| && r.value.off % 512 == 0 && Occurs(dev, r.value.off, c) else r.None?
  {
    hide Occurs, BlocksAt, OffsetOf, FilesIn, FirstNamed, OkConf, Capacity;
    assert OkFile(ds, files[k]);
    FoundWithin(ds, confs, files, k);
  }

  lemma FoundWithin(ds: seq<Data>, confs: seq<Option<Conf>>, files: seq<File>, k: nat)
    requires OkInput(ds, confs, files)
    requires k < |files| && forall j :: 0 <= j < k ==> files[j].name != files[k].name
    ensures FirstNamed(FilesIn(Blocks(ds, confs, files)), files[k].name) ==
      if k < Capacity(ds, confs) then Some(FileRecs(ds, files)[k]) else None
  {
    hide OffsetOf, FilesIn, FirstNamed, OkConf, Capacity;
    AllFiles(ds, confs, files);
    var all, rs := FileRecs(ds, files), Take(FileRecs(ds, files), Capacity(ds, confs));
    forall j | 0 <= j < |files|
      ensures all[j].name == files[j].name
    {
      assert OkFile(ds, files[j]);
    }
    if k < Capacity(ds, confs) {
      FirstIs(rs, k);
    } else {
      FirstNone(rs, files[k].name);
    }
  }

  lemma OtherNames(ds: seq<Data>, confs: seq<Option<Conf>>, files: seq<File>, name: bytes)
    requires OkInput(ds, confs, files)
    requires forall j :: 0 <= j < |files| ==> files[j].name != name
    ensures FirstNamed(FilesIn(Blocks(ds, confs, files)), name) == None
  {
    hide FilesIn, OffsetOf, OkConf, Capacity;
    AllFiles(ds, confs, files);
    var rs := FileRecs(ds, files);
    forall j | 0 <= j < |rs|
      ensures rs[j].name != name
    {
      assert OkFile(ds, files[j]);
    }
    FirstNone(Take(rs, Capacity(ds, confs)), name);
  }

  // ------------------------------------------------------------------ files that do not fit

  /** 25 configurations, and 400 files that share one empty data file. */
  ghost function ManyConfs(): seq<Option<Conf>> {
    seq(SLOTS, i => if i < 25 then Some(Conf([], [], [])) else None)
  }

  ghost function ManyFiles(): seq<File> {
    seq(400, i requires 0 <= i < 400 => File([48 + i / 40, 48 + i % 40], 0))
  }

  lemma {:induction false} FreeAfter(cs: seq<Option<Blk>>, k: nat)
    requires k <= |cs| && forall i :: 0 <= i < |cs| ==> (cs[i].Some? <==> i < k)
    ensures FreeSlots(cs) == |cs| - k
    decreases |cs|
  {
    if cs != [] {
      assert cs[0].Some? <==> 0 < k;
      FreeAfter(cs[1..], if k > 0 then k - 1 else 0);
    }
  }

  /** The seven slots left hold 357 of them; the last one is lost without an error. */
  lemma FilesLost()
    ensures var ds := [Data([], [])];
      && OkInput(ds, ManyConfs(), ManyFiles()) && Capacity(ds, ManyConfs()) == 357
      && FirstNamed(FilesIn(Blocks(ds, ManyConfs(), ManyFiles())), ManyFiles()[399].name) == None
  {
    hide FilesIn, FirstNamed, Blocks, FreeSlots;
    var ds, confs, files := [Data([], [])], ManyConfs(), ManyFiles();
    assert OffsetOf(ds, 0) == META;
    FreeAfter(ConfRecs(ds, confs), 25);
    forall i | 0 <= i < 399
      ensures files[i].name != files[399].name
    {
      DistinctPair(i, 399);
    }
    FoundWithin(ds, confs, files, 399);
  }

  lemma DistinctPair(i: nat, j: nat)
    requires i < j < 400
    ensures [48 + i / 40, 48 + i % 40] != [48 + j / 40, 48 + j % 40]
  {
    var a, b := [48 + i / 40, 48 + i % 40], [48 + j / 40, 48 + j % 40];
    assert a[0] != b[0] || a[1] != b[1];
  }

  lemma {:induction false} EncRefsAt(m: bytes, at: nat, rs: seq<Ref>, j: nat)
    requires Occurs(m, at, EncRefs(rs)) && j < |rs|
    ensures Occurs(m, at + 12 * j, EncRef(rs[j]))
    decreases j
  {
    hide EncRef;
    OccursCat(m, at, EncRef(rs[0]), EncRefs(rs[1..]));
    if j > 0 {
      EncRefsAt(m, at + 12, rs[1..], j - 1);
    }
  }

  /** The parts of a configuration block that its images are in. */
  lemma ConfParts(m: bytes, at: nat, b: Blk)
    requires b.ConfBlk? && OkBlk(b) && Occurs(m, at, EncBlk(b))
    ensures at + BLOCK <= |m| && m[at..at + 8] == CONF_MAGIC && |b.images| <= IMAGES
    ensures Occurs(m, at + 8, EncRefs(b.images)) && Occurs(m, at + 8 + 12 * |b.images|, Zeros(12 * (IMAGES - |b.images|)))
  {
    hide EncRefs, Field, Zeros, Occurs;
    var z, args, name := Zeros(12 * (IMAGES - |b.images|)), Field(b.bootargs, BLOCK - 8 - 12 * IMAGES - 96), Field(b.name, 96);
    ThreeParts(m, at, CONF_MAGIC + EncRefs(b.images) + z, args, name);
    ThreeParts(m, at, CONF_MAGIC, EncRefs(b.images), z);
    SliceIs(m, at, CONF_MAGIC);
  }

  /** An image entry reads back. */
  lemma RefAt(m: bytes, p: nat, r: Ref)
    requires r.kind < TWO32 && r.off < TWO32 && r.len < TWO32 && Occurs(m, p, EncRef(r))
    ensures p + 12 <= |m| && Ref(U32(m, p), U32(m, p + 4), U32(m, p + 8)) == r
  {
    hide BE32, U32, Occurs;
    OccursCat(m, p, BE32(r.kind) + BE32(r.off), BE32(r.len));
    OccursCat(m, p, BE32(r.kind), BE32(r.off));
    U32Of(m, p, r.kind);
    U32Of(m, p + 4, r.off);
    U32Of(m, p + 8, r.len);
  }

  /** Image j of a configuration block, or the zero that marks an unused entry. */
  lemma ConfBlockAt(m: bytes, at: nat, b: Blk, j: nat)
    requires b.ConfBlk? && OkBlk(b) && Occurs(m, at, EncBlk(b)) && j < IMAGES
    ensures at + BLOCK <= |m| && m[at..at + 8] == CONF_MAGIC
    ensures var p := at + 8 + 12 * j; if j < |b.images| then Ref(U32(m, p), U32(m, p + 4), U32(m, p + 8)) == b.images[j] else U32(m, p) == 0
  {
    hide EncRefs, EncRef, EncBlk, Zeros, U32, Occurs;
    ConfParts(m, at, b);
    if j < |b.images| {
      EncRefsAt(m, at + 8, b.images, j);
      RefAt(m, at + 8 + 12 * j, b.images[j]);
    } else {
      ZeroWord(m, at + 8 + 12 * |b.images|, 12 * (IMAGES - |b.images|), 12 * (j - |b.images|));
    }
  }

  lemma ZeroWord(m: bytes, at: nat, n: nat, k: nat)
    requires Occurs(m, at, Zeros(n)) && k + 4 <= n
    ensures U32(m, at + k) == 0
  {
    OccursAt(m, at, Zeros(n), k);
    OccursAt(m, at, Zeros(n), k + 1);
    OccursAt(m, at, Zeros(n), k + 2);
    OccursAt(m, at, Zeros(n), k + 3);
  }

  /** Every image of every configuration decodes to an extent that holds its contents. */
  lemma ImageRoundTrip(dev: bytes, ds: seq<Data>, confs: seq<Option<Conf>>, files: seq<File>, i: nat, j: nat)
    requires Made(dev, ds, confs, files) && i < SLOTS && confs[i].Some? && j < IMAGES
    ensures BLOCK * (i + 2) <= |dev| && OkConf(ds, confs[i].value)
    ensures var p := BLOCK * (i + 1) + 8 + 12 * j; var images := confs[i].value.images;
      if j >= |images| then U32(dev, p) == 0
      else U32(dev, p) == images[j].kind && U32(dev, p + 8) == |ds[images[j].data].contents| &&
           Occurs(dev, U32(dev, p + 4), ds[images[j].data].contents)
  {
    hide Occurs, EncBlk, OffsetOf, Layout, U32;
    BlocksOk(ds, confs, files);
    var b := Blocks(ds, confs, files)[i];
    assert OkBlk(b);
    ConfBlockAt(dev, BLOCK * (i + 1), b, j);
  }

  /**
    The name and the command line of every configuration read back, in the places the loader reads
    them from; snprintf cuts off what is too long for the field.
   */
  lemma ConfTextRoundTrip(dev: bytes, ds: seq<Data>, confs: seq<Option<Conf>>, files: seq<File>, i: nat)
    requires Made(dev, ds, confs, files) && i < SLOTS && confs[i].Some?
    ensures 2048 * (i + 2) <= |dev| && dev[2048 * (i + 1)..2048 * (i + 1) + 8] == CONF_MAGIC
    ensures var a := confs[i].value.bootargs; NoNul(a) ==> StrAt(dev, 2048 * (i + 1) + 104) == if |a| < 1848 then a else a[..1847]
    ensures var n := confs[i].value.name; NoNul(n) ==> StrAt(dev, 2048 * (i + 1) + 1952) == if |n| < 96 then n else n[..95]
  {
    hide Occurs, EncBlk, OffsetOf, Layout, StrAt, Field, OkBlk;
    BlocksOk(ds, confs, files);
    var b := Blocks(ds, confs, files)[i];
    ConfTextAt(dev, BLOCK * (i + 1), b);
    if NoNul(b.bootargs) {
      FieldAt(dev, BLOCK * (i + 1) + 104, b.bootargs, 1848);
    }
    if NoNul(b.name) {
      FieldAt(dev, BLOCK * (i + 1) + 1952, b.name, 96);
    }
  }

  /** The two fields of text of a configuration block. */
  lemma ConfTextAt(m: bytes, at: nat, b: Blk)
    requires b.ConfBlk? && OkBlk(b) && Occurs(m, at, EncBlk(b))
    ensures at + BLOCK <= |m| && m[at..at + 8] == CONF_MAGIC
    ensures Occurs(m, at + 104, Field(b.bootargs, 1848)) && Occurs(m, at + 1952, Field(b.name, 96))
  {
    hide EncRefs, Field, Zeros, Occurs;
    var z, args, name := Zeros(12 * (IMAGES - |b.images|)), Field(b.bootargs, 1848), Field(b.name, 96);
    ThreeParts(m, at, CONF_MAGIC + EncRefs(b.images) + z, args, name);
    ConfParts(m, at, b);
  }
}
