/**
  fdt_next_node and the walks built on it.  First what a walk over tokens finds, then the loops
  of fdt.c and fdt_wip.c that compute it.
 */
module Walk {
  import opened Bytes
  import opened Tokens
  import opened Blob
  import opened Scan

  /** Where fdt_next_node stops: at a node, past the END_NODE that takes the depth below 0, or at FDT_END. */
  datatype Stop = AtNode(j: nat, d: int) | Past(j: nat) | AtEnd

  /** fdt_next_node's scan from token j at depth d; without a depth pointer it never stops at an END_NODE. */
  function Next(ts: seq<Tok>, j: nat, d: int, tracked: bool): (r: Stop)
    ensures r.AtNode? ==> j <= r.j < |ts| && ts[r.j].TBegin?
    ensures r.AtNode? && tracked && d >= 0 ==> r.d > 0
    ensures r.Past? ==> j < r.j <= |ts| && tracked
    decreases |ts| - j
  {
    if j >= |ts| then AtEnd
    else match ts[j]
      case TBegin(_, _) => AtNode(j, d + 1)
      case TEnd => if tracked && d - 1 < 0 then Past(j + 1) else Next(ts, j + 1, d - 1, tracked)
      case TFin => AtEnd
      case _ => Next(ts, j + 1, d, tracked)
  }

  /** The unit-address rule of fdt_nodename_eq_: s is the whole name, or the name up to its '@'. */
  predicate NameEq(name: bytes, s: bytes) {
    |s| <= |name| && name[..|s|] == s && (|s| == |name| || ('@' as int !in s && name[|s|] == '@' as int))
  }

  /** A name without its unit address: what comes before its first '@'. */
  function BaseName(name: bytes): (r: bytes)
    ensures r <= name && '@' as int !in r && (|r| < |name| ==> name[|r|] == '@' as int)
  {
    if name == [] || name[0] == '@' as int then [] else [name[0]] + BaseName(name[1..])
  }

  lemma {:induction false} BaseNameIs(name: bytes, s: bytes)
    requires s <= name && '@' as int !in s && (|s| < |name| ==> name[|s|] == '@' as int)
    ensures s == BaseName(name)
    decreases |name|
  {
    if s != [] {
      assert name[0] == s[0] && s[0] in s;
      BaseNameIs(name[1..], s[1..]);
    }
  }

  /** The rule: a node answers to its whole name, and to the part before the first '@'. */
  lemma NameEqIs(name: bytes, s: bytes)
    ensures NameEq(name, s) <==> s == name || s == BaseName(name)
  {
    if NameEq(name, s) && s != name {
      BaseNameIs(name, s);
    }
  }

  /** A node that answers to two names: one of them is a name for the other. */
  lemma AnswersTwice(name: bytes, s: bytes, s': bytes)
    requires NameEq(name, s) && NameEq(name, s')
    ensures NameEq(s, s') || NameEq(s', s)
  {
    NameEqIs(name, s);
    NameEqIs(name, s');
  }

  datatype Want = Any | Named(s: bytes)

  predicate Matches(name: bytes, w: Want) {
    w.Any? || NameEq(name, w.s)
  }

  /** The first wanted node directly below depth 0, scanning from token j at depth d; -1 when the parent ends first. */
  function FindKid(ts: seq<Tok>, j: nat, d: nat, w: Want): (r: int)
    ensures r == -1 || (j <= r < |ts| && ts[r].TBegin? && Matches(ts[r].name, w))
    decreases |ts| - j
  {
    if j >= |ts| then -1
    else match ts[j]
      case TBegin(n, _) => if d == 0 && Matches(n, w) then j else FindKid(ts, j + 1, d + 1, w)
      case TEnd => if d == 0 then -1 else FindKid(ts, j + 1, d - 1, w)
      case TFin => -1
      case _ => FindKid(ts, j + 1, d, w)
  }

  /** The token after the END_NODE of the node entered at depth 0; -1 if there is none. */
  function EndOf(ts: seq<Tok>, j: nat, d: nat): (r: int)
    ensures r == -1 || j < r <= |ts|
    decreases |ts| - j
  {
    if j >= |ts| then -1
    else match ts[j]
      case TBegin(n, _) => EndOf(ts, j + 1, d + 1)
      case TEnd => if d == 0 then j + 1 else EndOf(ts, j + 1, d - 1)
      case TFin => -1
      case _ => EndOf(ts, j + 1, d)
  }

  lemma {:induction false} FindKidNext(ts: seq<Tok>, j: nat, d: nat, w: Want)
    ensures FindKid(ts, j, d, w) == match Next(ts, j, d, true)
      case AtNode(k, e) => if e == 1 && Matches(ts[k].name, w) then k else FindKid(ts, k + 1, e, w)
      case _ => -1
    decreases |ts| - j
  {
    if j < |ts| && !ts[j].TBegin? && !ts[j].TFin? {
      if !ts[j].TEnd? {
        FindKidNext(ts, j + 1, d, w);
      } else if d > 0 {
        FindKidNext(ts, j + 1, d - 1, w);
      }
    }
  }

  lemma {:induction false} EndOfNext(ts: seq<Tok>, j: nat, d: nat)
    ensures EndOf(ts, j, d) == match Next(ts, j, d, true)
      case AtNode(k, e) => EndOf(ts, k + 1, e)
      case Past(k) => k
      case AtEnd => -1
    decreases |ts| - j
  {
    if j < |ts| && !ts[j].TBegin? && !ts[j].TFin? {
      if !ts[j].TEnd? {
        EndOfNext(ts, j + 1, d);
      } else if d > 0 {
        EndOfNext(ts, j + 1, d - 1);
      }
    }
  }

  // ------------------------------------------------------------------ the loops

  /** ts is a whole block: FDT_END stops every scan. */
  predicate Closed(ts: seq<Tok>) {
    ts != [] && ts[|ts| - 1] == TFin
  }

  method CheckNodeOffset(f: Fdt, offset: int, ghost ts: seq<Tok>, ghost i: nat) returns (r: int)
    requires Scannable(f, ts) && i < |ts| && ts[i].TBegin? && offset == Off(ts, i)
    ensures r == Off(ts, i + 1)
  {
    TokenBytes(f, ts, i);
    if offset < 0 || offset % 4 != 0 { return -FDT_ERR_BADOFFSET; }
    var tag, next := NextTag(f, offset, ts, i);
    if tag != FDT_BEGIN_NODE { return -FDT_ERR_BADOFFSET; }
    return next;
  }

  /** i is the token of the current node, or -1 to start at the root. */
  method NextNode(f: Fdt, start: int, depth: int, tracked: bool, ghost ts: seq<Tok>, ghost i: int)
    returns (offset: int, d: int)
    requires Scannable(f, ts) && Closed(ts)
    requires if i < 0 then i == -1 && start == -1 else i < |ts| && ts[i].TBegin? && start == Off(ts, i)
    ensures match Next(ts, i + 1, depth, tracked)
      case AtNode(j, e) => offset == Off(ts, j) && d == e
      case Past(j) => offset == Off(ts, j) && d == -1
      case AtEnd => offset == -FDT_ERR_NOTFOUND
  {
    hide Enc, Off;
    offset, d := start, depth;
    var nextoffset := 0;
    ghost var j := i + 1;
    if offset >= 0 {
      nextoffset := CheckNodeOffset(f, offset, ts, i);
      if nextoffset < 0 { return nextoffset, d; }
    } else {
      OffZero(ts);
    }
    var tag := FDT_NOP;
    while tag != FDT_BEGIN_NODE
      invariant 0 <= j < |ts|
      invariant tag != FDT_BEGIN_NODE ==> nextoffset == Off(ts, j) && Next(ts, j, d, tracked) == Next(ts, i + 1, depth, tracked)
      invariant tag == FDT_BEGIN_NODE ==> Next(ts, i + 1, depth, tracked) == AtNode(j, d) && offset == Off(ts, j)
      decreases tag != FDT_BEGIN_NODE, |ts| - j
    {
      offset := nextoffset;
      tag, nextoffset := NextTag(f, offset, ts, j);
      if tag == FDT_BEGIN_NODE {
        d := d + 1;
      } else {
        if tag == FDT_END_NODE {
          d := d - 1;
          if tracked && d < 0 { return nextoffset, -1; }
        } else if tag == FDT_END {
          if nextoffset >= 0 || (nextoffset == -FDT_ERR_TRUNCATED && !tracked) { return -FDT_ERR_NOTFOUND, d; }
          return nextoffset, d;
        }
        j := j + 1;
      }
    }
  }

  lemma OffZero(ts: seq<Tok>)
    ensures Off(ts, 0) == 0
  {
  }

  method FirstSubnode(f: Fdt, start: nat, ghost ts: seq<Tok>, ghost i: nat) returns (offset: int)
    requires Scannable(f, ts) && Closed(ts) && i < |ts| && ts[i].TBegin? && start == Off(ts, i)
    ensures var j := FindKid(ts, i + 1, 0, Any); offset == if j == -1 then -FDT_ERR_NOTFOUND else Off(ts, j)
  {
    hide Enc, Off;
    FindKidNext(ts, i + 1, 0, Any);
    NextAtZero(ts, i + 1);
    var depth;
    offset, depth := NextNode(f, start, 0, true, ts, i);
    if offset < 0 || depth != 1 { return -FDT_ERR_NOTFOUND; }
  }

  /** From depth 0 the next node is at depth 1. */
  lemma {:induction false} NextAtZero(ts: seq<Tok>, j: nat)
    ensures Next(ts, j, 0, true).AtNode? ==> Next(ts, j, 0, true).d == 1
    decreases |ts| - j
  {
    if j < |ts| && !ts[j].TBegin? && !ts[j].TFin? && !ts[j].TEnd? {
      NextAtZero(ts, j + 1);
    }
  }

  method NextSubnode(f: Fdt, start: nat, ghost ts: seq<Tok>, ghost i: nat) returns (offset: int)
    requires Scannable(f, ts) && Closed(ts) && i < |ts| && ts[i].TBegin? && start == Off(ts, i)
    ensures var j := FindKid(ts, i + 1, 1, Any); offset == if j == -1 then -FDT_ERR_NOTFOUND else Off(ts, j)
  {
    hide Enc, Off;
    var depth := 1;
    offset := start;
    ghost var j := i;
    ghost var goal := FindKid(ts, i + 1, 1, Any);
    var again := true;
    while again
      invariant 0 <= j < |ts| && ts[j].TBegin? && offset == Off(ts, j) && depth >= 1
      invariant if again then FindKid(ts, j + 1, depth, Any) == goal else j == goal
      decreases again, |ts| - j
    {
      FindKidNext(ts, j + 1, depth, Any);
      ghost var stop := Next(ts, j + 1, depth, true);
      offset, depth := NextNode(f, offset, depth, true, ts, j);
      if offset < 0 || depth < 1 { return -FDT_ERR_NOTFOUND; }
      j := stop.j;
      again := depth > 1;
    }
  }

  /** fdt_node_end_offset_ */
  method NodeEndOffset(f: Fdt, start: nat, ghost ts: seq<Tok>, ghost i: nat) returns (offset: int)
    requires Scannable(f, ts) && Closed(ts) && i < |ts| && ts[i].TBegin? && start == Off(ts, i)
    ensures var j := EndOf(ts, i + 1, 0); offset == if j == -1 then -FDT_ERR_NOTFOUND else Off(ts, j)
  {
    hide Enc, Off;
    var depth := 0;
    offset := start;
    ghost var j := i;
    ghost var goal := EndOf(ts, i + 1, 0);
    while offset >= 0 && depth >= 0
      invariant depth >= 0 && offset >= 0 ==>
        0 <= j < |ts| && ts[j].TBegin? && offset == Off(ts, j) && EndOf(ts, j + 1, depth) == goal
      invariant offset < 0 ==> goal == -1 && offset == -FDT_ERR_NOTFOUND
      invariant depth < 0 && offset >= 0 ==> 0 <= goal <= |ts| && offset == Off(ts, goal)
      decreases offset >= 0 && depth >= 0, |ts| - j
    {
      EndOfNext(ts, j + 1, depth);
      ghost var stop := Next(ts, j + 1, depth, true);
      offset, depth := NextNode(f, offset, depth, true, ts, j);
      if stop.AtNode? { j := stop.j; }
    }
  }

  // ------------------------------------------------------------------ names

  /** memcmp of n bytes of the buffer with a caller's string: it stops at the first difference. */
  method MemCmp(mem: array<byte>, at: nat, s: bytes, ghost name: bytes) returns (r: int)
    requires NoNul(s) && NoNul(name) && Occurs(mem[..], at, name + [0])
    ensures r == 0 <==> |s| <= |name| && name[..|s|] == s
  {
    var k := 0;
    while k < |s| && mem[at + k] == s[k]
      invariant k <= |s| && k <= |name| && name[..k] == s[..k]
      invariant at + |name| < mem.Length
    {
      OccursAt(mem[..], at, name + [0], k);
      k := k + 1;
    }
    OccursAt(mem[..], at, name + [0], k);
    if k < |s| {
      if |s| <= |name| {
        OccursAt(name, 0, name[..|s|], k);
      }
      return mem[at + k] as int - s[k] as int;
    }
    return 0;
  }

  method StrLen(mem: array<byte>, at: nat, ghost name: bytes) returns (n: nat)
    requires NoNul(name) && Occurs(mem[..], at, name + [0])
    ensures n == |name|
  {
    n := 0;
    NameByte(mem[..], at, name, 0);
    while mem[at + n] != 0
      invariant n <= |name| && at + |name| < mem.Length
      invariant mem[at + n] == 0 <==> n == |name|
      decreases |name| - n
    {
      NameByte(mem[..], at, name, n + 1);
      n := n + 1;
    }
  }

  /** The header of a complete tree of version 17. */
  predicate Probed(f: Fdt)
    reads f
  {
    f.hdr.magic == FDT_MAGIC && f.hdr.version == 17 && f.hdr.lastComp <= 17 && f.hdr.totalsize < INT32_MAX
  }

  /** fdt_ro_probe_: the total size of a complete tree of a known version or of one being written, else the error. */
  function RoProbeOf(h: Header, mask: nat): (r: int)
    ensures r == -FDT_ERR_BADMAGIC <==> h.magic != FDT_MAGIC && h.magic != FDT_SW_MAGIC
    ensures r == -FDT_ERR_BADVERSION <==>
            h.magic == FDT_MAGIC && ChecksVersion(mask) && (h.version < FDT_FIRST_SUPPORTED_VERSION || FDT_LAST_SUPPORTED_VERSION < h.lastComp)
    ensures r == -FDT_ERR_BADSTATE <==> h.magic == FDT_SW_MAGIC && h.sizeStruct == 0
    ensures r in {-FDT_ERR_BADMAGIC, -FDT_ERR_BADVERSION, -FDT_ERR_BADSTATE} ||
            r == if h.totalsize < INT32_MAX then h.totalsize else -FDT_ERR_TRUNCATED
  {
    if h.magic == FDT_MAGIC && ChecksVersion(mask) && h.version < FDT_FIRST_SUPPORTED_VERSION then -FDT_ERR_BADVERSION
    else if h.magic == FDT_MAGIC && ChecksVersion(mask) && h.lastComp > FDT_LAST_SUPPORTED_VERSION then -FDT_ERR_BADVERSION
    else if h.magic == FDT_SW_MAGIC && h.sizeStruct == 0 then -FDT_ERR_BADSTATE
    else if h.magic != FDT_MAGIC && h.magic != FDT_SW_MAGIC then -FDT_ERR_BADMAGIC
    else if h.totalsize < INT32_MAX then h.totalsize
    else -FDT_ERR_TRUNCATED
  }

  function RoProbe(f: Fdt): (r: int)
    reads f
    ensures Probed(f) ==> r == f.hdr.totalsize
  {
    RoProbeOf(f.hdr, f.mask)
  }

  method GetName(f: Fdt, nodeoffset: nat, ghost ts: seq<Tok>, ghost i: nat) returns (nameptr: Ptr, len: int)
    requires Scannable(f, ts) && Probed(f) && i < |ts| && ts[i].TBegin? && nodeoffset == Off(ts, i)
    ensures nameptr == Ptr.Ptr(f.hdr.offStruct + nodeoffset + 4) && len == |ts[i].name|
    ensures NoNul(ts[i].name) && Occurs(f.mem[..], f.hdr.offStruct + nodeoffset + 4, ts[i].name + [0])
  {
    hide Enc, Off;
    TokenAt(f, ts, i);
    if f.ChkExtra() {
      if RoProbe(f) < 0 { return Null, RoProbe(f); }
      var err := CheckNodeOffset(f, nodeoffset, ts, i);
      if err < 0 { return Null, err; }
    }
    nameptr := Ptr.Ptr(f.hdr.offStruct + nodeoffset + 4);
    len := StrLen(f.mem, nameptr.at, ts[i].name);
  }

  method NodenameEq(f: Fdt, offset: nat, s: bytes, ghost ts: seq<Tok>, ghost i: nat) returns (r: bool)
    requires Scannable(f, ts) && Probed(f) && i < |ts| && ts[i].TBegin? && offset == Off(ts, i) && NoNul(s)
    ensures r <==> NameEq(ts[i].name, s)
  {
    hide Enc, Off;
    ghost var name := ts[i].name;
    var p, olen := GetName(f, offset, ts, i);
    if p.Null? || (f.ChkExtra() && olen < |s|) { return false; }
    var diff := MemCmp(f.mem, p.at, s, name);
    if diff != 0 { return false; }
    OccursAt(f.mem[..], p.at, name + [0], |s|);
    if f.mem[p.at + |s|] == 0 { return true; }
    return '@' as int !in s && f.mem[p.at + |s|] == '@' as int;
  }

  method SubnodeOffsetNamelen(f: Fdt, start: nat, name: bytes, ghost ts: seq<Tok>, ghost i: nat) returns (r: int)
    requires Scannable(f, ts) && Closed(ts) && Probed(f) && NoNul(name)
    requires i < |ts| && ts[i].TBegin? && start == Off(ts, i)
    ensures var j := FindKid(ts, i + 1, 0, Named(name)); r == if j == -1 then -FDT_ERR_NOTFOUND else Off(ts, j)
  {
    hide Enc, Off;
    if f.ChkBasic() && RoProbe(f) < 0 { return RoProbe(f); }
    var depth, offset := 0, start;
    ghost var j := i;
    ghost var goal := FindKid(ts, i + 1, 0, Named(name));
    while offset >= 0 && depth >= 0
      invariant offset >= 0 && depth >= 0 ==> 0 <= j < |ts| && ts[j].TBegin? && offset == Off(ts, j)
      invariant offset >= 0 && depth >= 0 ==>
        goal == if depth == 1 && NameEq(ts[j].name, name) then j else FindKid(ts, j + 1, depth, Named(name))
      invariant offset < 0 || depth < 0 ==> goal == -1
      invariant depth >= 0 && offset < 0 ==> offset == -FDT_ERR_NOTFOUND
      decreases offset >= 0 && depth >= 0, |ts| - j
    {
      if depth == 1 {
        var eq := NodenameEq(f, offset, name, ts, j);
        if eq { return offset; }
      }
      FindKidNext(ts, j + 1, depth, Named(name));
      ghost var stop := Next(ts, j + 1, depth, true);
      offset, depth := NextNode(f, offset, depth, true, ts, j);
      if stop.AtNode? { j := stop.j; }
    }
    if depth < 0 { return -FDT_ERR_NOTFOUND; }
    return offset;
  }
}
