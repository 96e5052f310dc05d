/**
  fdt_find_regions of fdt_region.c: which parts of the structure block belong to the chosen nodes,
  without the excluded properties, as a list of byte regions.
 */
module Regions {
  import opened Bytes
  import opened Tokens
  import opened Tree
  import opened Meaning
  import opened Blob
  import opened Scan
  import opened Walk
  import opened TreeWalk
  import opened Props
  import opened Paths

  const FDT_MAX_DEPTH: nat := 32

  datatype Region = Region(offset: nat, size: nat)

  // ------------------------------------------------------------------ what is included

  /** want: 2 inside an included node, 1 in its subnodes, whose tags alone are included, 0 elsewhere; the wants outside; the path. */
  datatype State = State(want: nat, stack: seq<nat>, path: bytes)

  /** The path once a node is entered; the root's is "/". */
  function Entered(path: bytes, name: bytes): (r: bytes)
    ensures |r| >= |name|
  {
    if |path| == 1 then path + name else path + [SLASH] + name
  }

  /** The path up to its last slash. */
  function Left(path: bytes): (r: bytes)
    ensures |r| <= |path|
  {
    if path == [] then [] else if path[|path| - 1] == SLASH then path[..|path| - 1] else Left(path[..|path| - 1])
  }

  /** The want of a node with this path, given that of its parent. */
  function Want(inc: seq<bytes>, path: bytes, parent: nat): nat {
    if path in inc then 2 else if parent > 0 then parent - 1 else 0
  }

  function Step(inc: seq<bytes>, s: State, t: Tok): State {
    match t
    case TBegin(n, _) => State(Want(inc, Entered(s.path, n), s.want), s.stack + [s.want], Entered(s.path, n))
    case TEnd => if s.stack == [] then s else State(s.stack[|s.stack| - 1], s.stack[..|s.stack| - 1], Left(s.path))
    case _ => s
  }

  function StateAt(inc: seq<bytes>, ts: seq<Tok>, k: nat): State
    requires k <= |ts|
  {
    if k == 0 then State(0, [], []) else Step(inc, StateAt(inc, ts, k - 1), ts[k - 1])
  }

  /** Whether token t is included, in state s. */
  predicate Included(inc: seq<bytes>, exc: seq<bytes>, names: bytes, s: State, t: Tok) {
    match t
    case TProp(o, _, _) => s.want >= 2 && StrAt(names, o) !in exc
    case TNop => s.want >= 2
    case TBegin(n, _) => Want(inc, Entered(s.path, n), s.want) > 0
    case TEnd => s.want > 0
    case TFin => true
  }

  /** The tokens in regions: those included, and an END_NODE right after one. */
  predicate Covered(inc: seq<bytes>, exc: seq<bytes>, names: bytes, ts: seq<Tok>, k: nat)
    requires k < |ts|
  {
    Included(inc, exc, names, StateAt(inc, ts, k), ts[k]) ||
    (ts[k].TEnd? && k > 0 && Included(inc, exc, names, StateAt(inc, ts, k - 1), ts[k - 1]))
  }

  // ------------------------------------------------------------------ the regions

  /** The maximal runs of covered tokens among the first k. */
  function Runs(cov: seq<bool>, offs: seq<nat>, k: nat): (r: seq<Region>)
    requires k <= |cov| && |offs| == |cov| + 1
  {
    if k == 0 then []
    else
      var r := Runs(cov, offs, k - 1);
      if !cov[k - 1] || offs[k] < offs[k - 1] then r
      else if r != [] && r[|r| - 1].offset + r[|r| - 1].size == offs[k - 1] then
        r[..|r| - 1] + [Region(r[|r| - 1].offset, r[|r| - 1].size + (offs[k] - offs[k - 1]))]
      else r + [Region(offs[k - 1], offs[k] - offs[k - 1])]
  }

  predicate Rising(offs: seq<nat>) {
    forall i :: 0 <= i < |offs| - 1 ==> offs[i] < offs[i + 1]
  }

  /** Regions are not empty, in order, do not even touch, and end by lim. */
  predicate Apart(r: seq<Region>, lim: int) {
    r == [] ||
    var l := r[|r| - 1];
    l.size > 0 && l.offset + l.size <= lim && Apart(r[..|r| - 1], l.offset - 1)
  }

  lemma {:induction false} ApartAt(r: seq<Region>, lim: int, i: nat)
    requires Apart(r, lim) && i < |r|
    ensures r[i].size > 0 && r[i].offset + r[i].size <= lim
    ensures i + 1 < |r| ==> r[i].offset + r[i].size < r[i + 1].offset
  {
    var l := r[|r| - 1];
    if i < |r| - 1 {
      ApartAt(r[..|r| - 1], l.offset - 1, i);
    }
  }

  lemma Widen(r: seq<Region>, a: int, b: int)
    requires Apart(r, a) && a <= b
    ensures Apart(r, b)
  {
  }

  lemma {:induction false} RunsApart(cov: seq<bool>, offs: seq<nat>, k: nat)
    requires k <= |cov| && |offs| == |cov| + 1 && Rising(offs)
    ensures Apart(Runs(cov, offs, k), offs[k])
  {
    if k > 0 {
      RunsApart(cov, offs, k - 1);
      assert offs[k - 1] < offs[k - 1 + 1];
      var r := Runs(cov, offs, k - 1);
      Widen(r, offs[k - 1], offs[k]);
      if cov[k - 1] {
        var r' := Runs(cov, offs, k);
        if r != [] && r[|r| - 1].offset + r[|r| - 1].size == offs[k - 1] {
          assert r'[..|r'| - 1] == r[..|r| - 1];
        } else {
          assert r'[..|r'| - 1] == r;
          if r != [] {
            assert Apart(r, offs[k - 1] - 1);
          }
        }
      }
    }
  }

  /** Byte x is in one of the regions. */
  predicate Holds(r: seq<Region>, x: int) {
    r != [] && (r[|r| - 1].offset <= x < r[|r| - 1].offset + r[|r| - 1].size || Holds(r[..|r| - 1], x))
  }

  lemma {:induction false} HoldsIs(r: seq<Region>, x: int)
    ensures Holds(r, x) <==> exists i :: 0 <= i < |r| && r[i].offset <= x < r[i].offset + r[i].size
  {
    if r != [] {
      var s := r[..|r| - 1];
      HoldsIs(s, x);
      if Holds(s, x) {
        var i :| 0 <= i < |s| && s[i].offset <= x < s[i].offset + s[i].size;
        assert r[i] == s[i];
      }
      if exists i :: 0 <= i < |r| && r[i].offset <= x < r[i].offset + r[i].size {
        var i :| 0 <= i < |r| && r[i].offset <= x < r[i].offset + r[i].size;
        assert i < |s| ==> s[i] == r[i];
      }
    }
  }

  /** Byte x belongs to one of the first k tokens that are covered. */
  predicate CoveredByte(cov: seq<bool>, offs: seq<nat>, k: nat, x: int)
    requires k <= |cov| && |offs| == |cov| + 1
  {
    k > 0 && ((cov[k - 1] && offs[k - 1] <= x < offs[k]) || CoveredByte(cov, offs, k - 1, x))
  }

  /** The regions hold exactly the bytes of the covered tokens. */
  lemma {:induction false} RunsCover(cov: seq<bool>, offs: seq<nat>, k: nat, x: int)
    requires k <= |cov| && |offs| == |cov| + 1 && Rising(offs)
    ensures Holds(Runs(cov, offs, k), x) <==> CoveredByte(cov, offs, k, x)
  {
    if k > 0 {
      RunsCover(cov, offs, k - 1, x);
      RunsApart(cov, offs, k - 1);
      assert offs[k - 1] < offs[k - 1 + 1];
      var r := Runs(cov, offs, k - 1);
      if cov[k - 1] {
        var r' := Runs(cov, offs, k);
        if r != [] && r[|r| - 1].offset + r[|r| - 1].size == offs[k - 1] {
          assert r'[..|r'| - 1] == r[..|r| - 1];
        } else {
          assert r'[..|r'| - 1] == r;
        }
      }
    }
  }

  lemma {:induction false} CoveredByteIs(cov: seq<bool>, offs: seq<nat>, k: nat, x: int)
    requires k <= |cov| && |offs| == |cov| + 1
    ensures CoveredByte(cov, offs, k, x) <==> exists j :: 0 <= j < k && cov[j] && offs[j] <= x < offs[j + 1]
  {
    if k > 0 {
      CoveredByteIs(cov, offs, k - 1, x);
      assert cov[k - 1] && offs[k - 1] <= x < offs[k - 1 + 1] <==> cov[k - 1] && offs[k - 1] <= x < offs[k];
    }
  }

  // ------------------------------------------------------------------ the scan

  /** Which tokens of a block are covered, and where they are. */
  function Cov(inc: seq<bytes>, exc: seq<bytes>, names: bytes, ts: seq<Tok>): (r: seq<bool>)
    ensures |r| == |ts|
  {
    seq(|ts|, k requires 0 <= k < |ts| => Covered(inc, exc, names, ts, k))
  }

  function Offs(ts: seq<Tok>): (r: seq<nat>)
    ensures |r| == |ts| + 1
  {
    seq(|ts| + 1, k requires 0 <= k < |ts| + 1 => Off(ts, k))
  }

  lemma OffsRise(ts: seq<Tok>)
    ensures Rising(Offs(ts))
  {
    hide Off;
    forall i | 0 <= i < |ts|
      ensures Offs(ts)[i] < Offs(ts)[i + 1]
    {
      OffMono(ts, i, i + 1);
    }
  }

  /** The first k tokens' regions, moved to where the block is. */
  function Placed(r: seq<Region>, base: nat): (p: seq<Region>)
    ensures |p| == |r|
  {
    seq(|r|, i requires 0 <= i < |r| => Region(base + r[i].offset, r[i].size))
  }

  /** Regions recorded so far, and the one being collected, if start is not -1. */
  ghost predicate Collected(region: array<Region>, count: nat, max: nat, start: int, base: nat, r: seq<Region>, at: nat)
    reads region
  {
    && (start == -1 || 0 <= start < at)
    && (count <= max ==> max <= region.Length && region[..count] + (if start == -1 then [] else [Region(base + start, at - start)]) == Placed(r, base))
    && (count > max ==> |r| > max)
  }

  /** One more token: nothing, a longer last region, or another region. */
  lemma RunsNext(cov: seq<bool>, offs: seq<nat>, k: nat, base: nat)
    requires k < |cov| && |offs| == |cov| + 1 && Rising(offs)
    ensures offs[k] < offs[k + 1]
    ensures var p, q, n := Placed(Runs(cov, offs, k), base), Placed(Runs(cov, offs, k + 1), base), offs[k + 1] - offs[k];
      if !cov[k] then q == p
      else if p != [] && p[|p| - 1].offset + p[|p| - 1].size == base + offs[k] then
        q == p[..|p| - 1] + [Region(p[|p| - 1].offset, p[|p| - 1].size + n)]
      else q == p + [Region(base + offs[k], n)]
    ensures var p := Placed(Runs(cov, offs, k), base); |p| == |Runs(cov, offs, k)| && (p != [] ==> p[|p| - 1].offset >= base)
    ensures |Runs(cov, offs, k)| <= |Runs(cov, offs, k + 1)| == |Placed(Runs(cov, offs, k + 1), base)|
  {
    hide Runs;
    var r := Runs(cov, offs, k);
    assert Runs(cov, offs, k + 1) ==
      if !cov[k] then r
      else if r != [] && r[|r| - 1].offset + r[|r| - 1].size == offs[k] then
        r[..|r| - 1] + [Region(r[|r| - 1].offset, r[|r| - 1].size + (offs[k + 1] - offs[k]))]
      else r + [Region(offs[k], offs[k + 1] - offs[k])]
    by {
      RunsStep(cov, offs, k);
    }
  }

  lemma RunsStep(cov: seq<bool>, offs: seq<nat>, k: nat)
    requires k < |cov| && |offs| == |cov| + 1 && offs[k] < offs[k + 1]
    ensures var r, q := Runs(cov, offs, k), Runs(cov, offs, k + 1);
      q == if !cov[k] then r
      else if r != [] && r[|r| - 1].offset + r[|r| - 1].size == offs[k] then
        r[..|r| - 1] + [Region(r[|r| - 1].offset, r[|r| - 1].size + (offs[k + 1] - offs[k]))]
      else r + [Region(offs[k], offs[k + 1] - offs[k])]
  {
  }

  /** The end of the loop body: opening, merging or closing a region at token k. */
  method Update(region: array<Region>, count0: nat, max: nat, start0: int, base: nat, inside: bool, stopAt: nat, offset: nat,
                ghost cov: seq<bool>, ghost offs: seq<nat>, ghost k: nat) returns (count: nat, start: int)
    requires k < |cov| && |offs| == |cov| + 1 && Rising(offs) && offset == offs[k] && max <= region.Length
    requires Collected(region, count0, max, start0, base, Runs(cov, offs, k), offs[k])
    requires if inside then cov[k] else if start0 == -1 then !cov[k] else stopAt == if cov[k] then offs[k + 1] else offs[k]
    modifies region
    ensures Collected(region, count, max, start, base, Runs(cov, offs, k + 1), offs[k + 1]) && (start == -1 <==> !inside)
  {
    hide Runs, Placed;
    RunsNext(cov, offs, k, base);
    count, start := count0, start0;
    if inside && start == -1 {
      if count > 0 && count <= max && offset == region[count - 1].offset + region[count - 1].size - base {
        count := count - 1;
        start := region[count].offset - base;
      } else {
        start := offset;
      }
    }
    if !inside && start != -1 {
      if count < max {
        region[count] := Region(base + start, stopAt - start);
      }
      count := count + 1;
      start := -1;
    }
  }

  /** What the scan keeps room for: depth, and the path buffer. */
  predicate Fits(inc: seq<bytes>, ts: seq<Tok>, pathLen: nat) {
    forall k :: 0 <= k < |ts| && ts[k].TBegin? ==>
      |StateAt(inc, ts, k).stack| < FDT_MAX_DEPTH && |StateAt(inc, ts, k).path| + 2 + |ts[k].name| < pathLen
  }

  lemma {:induction false} StateDepth(inc: seq<bytes>, ts: seq<Tok>, k: nat)
    requires k <= |ts|
    ensures |StateAt(inc, ts, k).stack| == |Stack(ts, k)|
  {
    if k > 0 {
      StateDepth(inc, ts, k - 1);
    }
  }

  /** An END_NODE always ends a node of the block. */
  lemma {:induction false} EndsNode(ts: seq<Tok>, a: nat, it: Item, k: nat)
    requires Occurs(ts, a, Flat(it)) && a <= k < a + |Flat(it)| && k < |ts| && ts[k].TEnd?
    ensures |Stack(ts, k)| > 0
    decreases it, 1
  {
    hide Flat, FlatS, Stack, Occurs;
    if it.Node? {
      NodeParts(ts, a, it);
      if a < k < a + 1 + |FlatS(it.items)| {
        EndsNodeS(ts, a + 1, it.items, k);
      } else {
        StackNext(ts, a);
        StackFlatS(ts, a + 1, it.items);
      }
    } else {
      LeafPart(ts, a, it);
    }
  }

  lemma {:induction false} EndsNodeS(ts: seq<Tok>, a: nat, its: seq<Item>, k: nat)
    requires Occurs(ts, a, FlatS(its)) && a <= k < a + |FlatS(its)| && k < |ts| && ts[k].TEnd?
    ensures |Stack(ts, k)| > 0
    decreases its, 0
  {
    hide Flat, Stack, Occurs;
    OccursCat(ts, a, Flat(its[0]), FlatS(its[1..]));
    if k < a + |Flat(its[0])| {
      EndsNode(ts, a, its[0], k);
    } else {
      EndsNodeS(ts, a + |Flat(its[0])|, its[1..], k);
    }
  }

  /** The name of every property token is a string. */
  lemma {:induction false} NamesEnd(t: bytes, it: Item, k: nat)
    requires OkItem(t, it) && k < |Flat(it)| && Flat(it)[k].TProp?
    ensures Terminated(t, Flat(it)[k].nameoff)
    decreases it, 1
  {
    if it.Node? {
      NamesEndS(t, it.items, k - 1);
    }
  }

  lemma {:induction false} NamesEndS(t: bytes, its: seq<Item>, k: nat)
    requires OkItems(t, its) && k < |FlatS(its)| && FlatS(its)[k].TProp?
    ensures Terminated(t, FlatS(its)[k].nameoff)
    decreases its, 0
  {
    hide Flat;
    if k < |Flat(its[0])| {
      assert FlatS(its)[k] == Flat(its[0])[k];
      NamesEnd(t, its[0], k);
    } else {
      assert FlatS(its)[k] == FlatS(its[1..])[k - |Flat(its[0])|];
      NamesEndS(t, its[1..], k - |Flat(its[0])|);
    }
  }

  /** What the scan relies on at token k of a blob. */
  lemma ScanToken(f: Fdt, inc: seq<bytes>, k: nat)
    requires f.Valid() && k < |Block(f.root)|
    ensures var ts := Block(f.root);
      && Scannable(f, ts) && Closed(ts) && Probed(f) && Laid(f.hdr, f.mem[..])
      && (ts[k].TProp? ==> Terminated(f.Strings(), ts[k].nameoff))
      && (ts[k].TEnd? ==> StateAt(inc, ts, k).stack != [])
      && (ts[k].TFin? <==> k == |ts| - 1)
  {
    hide Flat, Wf, StringsOf, Stack, Step, StateAt, StrAt, Terminated, Off, Enc, OkItem, PropsFirst;
    WfLaid(f.hdr, f.mem[..], f.root, f.rsv);
    NodeFacts(f, []);
    RootTokens(f.root);
    var ts := Block(f.root);
    if k < |Flat(f.root)| {
      assert ts[k] == Flat(f.root)[k];
      if ts[k].TProp? {
        NamesEnd(f.Strings(), f.root, k);
      } else if ts[k].TEnd? {
        EndsNode(ts, 0, f.root, k);
        StateDepth(inc, ts, k);
      } else if ts[k].TFin? {
        StackFlat(ts, 0, f.root);
      }
    }
  }

  /** The last region also takes the strings, if asked to. */
  function WithTable(r: seq<Region>, n: nat): seq<Region> {
    if r == [] then r else r[..|r| - 1] + [Region(r[|r| - 1].offset, r[|r| - 1].size + n)]
  }

  /** The regions of a block at index base of the buffer. */
  function RegionsOf(inc: seq<bytes>, exc: seq<bytes>, names: bytes, ts: seq<Tok>, base: nat): seq<Region> {
    Placed(Runs(Cov(inc, exc, names, ts), Offs(ts), |ts|), base)
  }

  /** The case of a node: the state inside it, and whether a region before it would stop before its tag. */
  method Enter(f: Fdt, inc: seq<bytes>, pathLen: nat, offset: nat, s: State, ghost k: nat) returns (err: int, s': State, before: bool)
    requires f.Valid() && k < |Block(f.root)| && offset == Off(Block(f.root), k) && s == StateAt(inc, Block(f.root), k)
    requires Block(f.root)[k].TBegin?
    ensures err == ErrorAt(inc, Block(f.root), k, pathLen)
    ensures err == 0 ==> s' == StateAt(inc, Block(f.root), k + 1)
    ensures err == 0 && s'.want == 0 ==> before
  {
    hide Flat, FlatS, Block, Enc, Off, Wf, StringsOf, StateAt, StrAt, Terminated, Entered, Left, Load, Scannable, Occurs, Probed, Laid, Closed;
    ghost var ts := Block(f.root);
    ScanToken(f, inc, k);
    StateNext(inc, ts, k);
    err, s', before := 0, s, s.want == 1;
    var depth := |s.stack|;
    if depth >= FDT_MAX_DEPTH { return -FDT_ERR_BADSTRUCTURE, s', before; }
    var at, len := GetName(f, offset, ts, k);
    if |s.path| + 2 + len >= pathLen { return -FDT_ERR_NOSPACE, s', before; }
    CStringHere(f.mem[..], at.at, ts[k].name);
    var path := Entered(s.path, f.mem[at.at..at.at + len]);
    var want := s.want;
    if path in inc {
      want := 2;
    } else if want > 0 {
      want := want - 1;
    } else {
      before := true;
    }
    s' := State(want, s.stack + [s.want], path);
  }

  lemma CStringHere(m: bytes, at: nat, s: bytes)
    requires Occurs(m, at, s + [0])
    ensures at + |s| <= |m| && m[at..at + |s|] == s
  {
    OccursCat(m, at, s, [0]);
  }

  /** The switch of the loop: what token k does to the state, whether it is inside, and where a region before it would stop. */
  method Visit(f: Fdt, inc: seq<bytes>, exc: seq<bytes>, pathLen: nat, offset: nat, s: State, ghost k: nat)
      returns (err: int, tag: nat, nextoffset: nat, s': State, inside: bool, stopAt: nat)
    requires f.Valid() && k < |Block(f.root)| && offset == Off(Block(f.root), k) && s == StateAt(inc, Block(f.root), k)
    ensures err == ErrorAt(inc, Block(f.root), k, pathLen)
    ensures err == 0 ==> tag == TagOf(Block(f.root)[k]) && nextoffset == Off(Block(f.root), k + 1) && s' == StateAt(inc, Block(f.root), k + 1)
    ensures err == 0 ==> inside == Included(inc, exc, f.Strings(), s, Block(f.root)[k])
    ensures err == 0 && !inside ==> stopAt == if Block(f.root)[k].TEnd? then nextoffset else offset
  {
    hide Flat, FlatS, Block, Enc, Off, Wf, StringsOf, StateAt, Step, StrAt, Terminated, Entered, Left, Load;
    ghost var t, ts := f.Strings(), Block(f.root);
    ScanToken(f, inc, k);
    StateNext(inc, ts, k);
    TokenAt(f, ts, k);
    err, s', inside := 0, s, true;
    tag, nextoffset := NextTag(f, offset, ts, k);
    stopAt := nextoffset;
    if tag == FDT_PROP {
      stopAt := offset;
      var nameoff := Load(f.mem, f.hdr.offStruct + offset + 8);
      var p, len := GetString(f, nameoff);
      OccursCat(f.mem[..], p.at, StrAt(t, ts[k].nameoff), [0]);
      inside := s.want >= 2 && f.mem[p.at..p.at + len] !in exc;
    } else if tag == FDT_NOP {
      inside := s.want >= 2;
      stopAt := offset;
    } else if tag == FDT_BEGIN_NODE {
      var before;
      err, s', before := Enter(f, inc, pathLen, offset, s, k);
      if err != 0 { return; }
      if before {
        stopAt := offset;
      }
      inside := s'.want > 0;
    } else if tag == FDT_END_NODE {
      if |s.stack| == 0 {
        err := -FDT_ERR_BADSTRUCTURE;
        return;
      }
      inside := s.want > 0;
      s' := State(s.stack[|s.stack| - 1], s.stack[..|s.stack| - 1], Left(s.path));
    }
  }

  /** The loop of fdt_find_regions, up to the terminator: err is 0 unless a node does not fit. */
  method Collect(f: Fdt, inc: seq<bytes>, exc: seq<bytes>, region: array<Region>, maxRegions: nat, pathLen: nat)
      returns (err: int, count: nat, start: int, nextoffset: nat)
    requires f.Valid() && maxRegions <= region.Length
    modifies region
    ensures err == FirstError(inc, Block(f.root), 0, pathLen)
    ensures err == 0 ==> nextoffset == Off(Block(f.root), |Block(f.root)|) && start != -1
    ensures err == 0 ==> var ts := Block(f.root); Collected(region, count, maxRegions, start, f.hdr.offStruct,
      Runs(Cov(inc, exc, f.Strings(), ts), Offs(ts), |ts|), Off(ts, |ts|))
  {
    hide Flat, FlatS, Block, Enc, Off, Wf, StringsOf, StateAt, Covered, Included, Runs, Placed, Collected, FitsAt, Fits, FirstError, ErrorAt, Scannable, Laid;
    ghost var t, ts, k: nat := f.Strings(), Block(f.root), 0;
    ghost var cov, offs := Cov(inc, exc, t, ts), Offs(ts);
    WfLaid(f.hdr, f.mem[..], f.root, f.rsv);
    RootTokens(f.root);
    OffsRise(ts);
    StartScan(inc, ts, region, maxRegions, f.hdr.offStruct, cov, offs);
    var s := State(0, [], []);
    var tag := FDT_NOP;
    var base := f.hdr.offStruct;
    err, nextoffset, count, start := 0, 0, 0, -1;
    while tag != FDT_END
      invariant err == 0 && k <= |ts| && (if tag == FDT_END then k == |ts| && start != -1 else k < |ts|)
      invariant nextoffset == Off(ts, k) && s == StateAt(inc, ts, k)
      invariant Collected(region, count, maxRegions, start, base, Runs(cov, offs, k), offs[k])
      invariant start != -1 <==> k > 0 && Included(inc, exc, t, StateAt(inc, ts, k - 1), ts[k - 1])
      invariant FirstError(inc, ts, 0, pathLen) == FirstError(inc, ts, k, pathLen)
      decreases tag != FDT_END, |ts| - k
    {
      ScanToken(f, inc, k);
      CoveredIs(inc, exc, t, ts, k);
      TagFin(ts[k]);
      ghost var s0 := s;
      var offset := nextoffset;
      var inside, stopAt;
      err, tag, nextoffset, s, inside, stopAt := Visit(f, inc, exc, pathLen, offset, s, k);
      ErrorStep(inc, ts, k, pathLen);
      if err != 0 { return; }
      FinInside(inc, exc, t, s0, ts[k]);
      count, start := Update(region, count, maxRegions, start, base, inside, stopAt, offset, cov, offs, k);
      k := k + 1;
    }
    ErrorStep(inc, ts, k, pathLen);
  }

  /**
    fdt_find_regions.  It fails exactly when the tree is too deep or a path too long; the result
    says whether the array was large enough, and if it was, the array holds the maximal runs of
    covered tokens.
   */
  method FindRegions(f: Fdt, inc: seq<bytes>, exc: seq<bytes>, region: array<Region>, maxRegions: nat, pathLen: nat, addStringTab: bool)
      returns (r: int)
    requires f.Valid() && maxRegions <= region.Length && pathLen > 0
    modifies region
    ensures r >= 0 <==> Fits(inc, Block(f.root), pathLen)
    ensures r < 0 ==> r == FirstError(inc, Block(f.root), 0, pathLen)
    ensures r >= 0 ==> (r <= maxRegions <==> |RegionsOf(inc, exc, f.Strings(), Block(f.root), f.hdr.offStruct)| <= maxRegions)
    ensures 0 <= r <= maxRegions ==>
      region[..r] == WithTable(RegionsOf(inc, exc, f.Strings(), Block(f.root), f.hdr.offStruct), if addStringTab then f.hdr.sizeStrings else 0)
  {
    hide Flat, FlatS, Block, Enc, Off, Wf, StringsOf, StateAt, Runs, Placed, Collected, FirstError;
    ghost var ts := Block(f.root);
    WfLaid(f.hdr, f.mem[..], f.root, f.rsv);
    var err, count, start, nextoffset := Collect(f, inc, exc, region, maxRegions, pathLen);
    FirstErrorFits(inc, ts, 0, pathLen);
    FitsIs(inc, ts, pathLen);
    if err != 0 { return err; }
    LastRegion(region, count, maxRegions, start, f.hdr.offStruct, Runs(Cov(inc, exc, f.Strings(), ts), Offs(ts), |ts|), nextoffset);
    WholeBlock(f);
    if nextoffset != f.hdr.sizeStruct { return -FDT_ERR_BADLAYOUT; }
    if count < maxRegions {
      region[count] := Region(f.hdr.offStruct + start, nextoffset - start);
      if addStringTab {
        region[count] := Region(f.hdr.offStruct + start, nextoffset - start + f.hdr.sizeStrings);
      }
    }
    count := count + 1;
    return count;
  }

  lemma TagFin(t: Tok)
    ensures TagOf(t) == FDT_END <==> t.TFin?
  {
  }

  lemma FinInside(inc: seq<bytes>, exc: seq<bytes>, names: bytes, s: State, t: Tok)
    ensures t.TFin? ==> Included(inc, exc, names, s, t)
  {
  }

  lemma WholeBlock(f: Fdt)
    requires f.Valid()
    ensures Off(Block(f.root), |Block(f.root)|) == f.hdr.sizeStruct
  {
    assert Block(f.root)[..|Block(f.root)|] == Block(f.root);
  }

  predicate FitsAt(inc: seq<bytes>, ts: seq<Tok>, k: nat, pathLen: nat)
    requires k < |ts|
  {
    ts[k].TBegin? ==> |StateAt(inc, ts, k).stack| < FDT_MAX_DEPTH && |StateAt(inc, ts, k).path| + 2 + |ts[k].name| < pathLen
  }

  /** The error at token k: a node too deep, or else one whose path is too long. */
  function ErrorAt(inc: seq<bytes>, ts: seq<Tok>, k: nat, pathLen: nat): (r: int)
    requires k < |ts|
    ensures r == 0 <==> FitsAt(inc, ts, k, pathLen)
  {
    if FitsAt(inc, ts, k, pathLen) then 0
    else if |StateAt(inc, ts, k).stack| >= FDT_MAX_DEPTH then -FDT_ERR_BADSTRUCTURE
    else -FDT_ERR_NOSPACE
  }

  /** The first error from token k on. */
  function FirstError(inc: seq<bytes>, ts: seq<Tok>, k: nat, pathLen: nat): (r: int)
    ensures r == 0 || r == -FDT_ERR_BADSTRUCTURE || r == -FDT_ERR_NOSPACE
    decreases |ts| - k
  {
    if k >= |ts| then 0
    else if FitsAt(inc, ts, k, pathLen) then FirstError(inc, ts, k + 1, pathLen)
    else ErrorAt(inc, ts, k, pathLen)
  }

  lemma ErrorStep(inc: seq<bytes>, ts: seq<Tok>, k: nat, pathLen: nat)
    ensures FirstError(inc, ts, k, pathLen) ==
      if k >= |ts| then 0 else if ErrorAt(inc, ts, k, pathLen) == 0 then FirstError(inc, ts, k + 1, pathLen) else ErrorAt(inc, ts, k, pathLen)
  {
  }

  lemma {:induction false} FirstErrorFits(inc: seq<bytes>, ts: seq<Tok>, k: nat, pathLen: nat)
    ensures FirstError(inc, ts, k, pathLen) == 0 <==> forall i :: k <= i < |ts| ==> FitsAt(inc, ts, i, pathLen)
    decreases |ts| - k
  {
    hide StateAt, FitsAt;
    if k < |ts| {
      FirstErrorFits(inc, ts, k + 1, pathLen);
    }
  }

  lemma FitsIs(inc: seq<bytes>, ts: seq<Tok>, pathLen: nat)
    ensures Fits(inc, ts, pathLen) <==> forall i :: 0 <= i < |ts| ==> FitsAt(inc, ts, i, pathLen)
  {
    hide StateAt;
    if forall i :: 0 <= i < |ts| ==> FitsAt(inc, ts, i, pathLen) {
      forall k | 0 <= k < |ts| && ts[k].TBegin?
        ensures |StateAt(inc, ts, k).stack| < FDT_MAX_DEPTH && |StateAt(inc, ts, k).path| + 2 + |ts[k].name| < pathLen
      {
        assert FitsAt(inc, ts, k, pathLen);
      }
    }
  }

  lemma StateNext(inc: seq<bytes>, ts: seq<Tok>, k: nat)
    requires k < |ts|
    ensures var s := StateAt(inc, ts, k); StateAt(inc, ts, k + 1) == match ts[k]
      case TBegin(n, _) => State(Want(inc, Entered(s.path, n), s.want), s.stack + [s.want], Entered(s.path, n))
      case TEnd => if s.stack == [] then s else State(s.stack[|s.stack| - 1], s.stack[..|s.stack| - 1], Left(s.path))
      case _ => s
  {
  }

  lemma CoveredIs(inc: seq<bytes>, exc: seq<bytes>, names: bytes, ts: seq<Tok>, k: nat)
    requires k < |ts|
    ensures Included(inc, exc, names, StateAt(inc, ts, k), ts[k]) ==> Cov(inc, exc, names, ts)[k]
    ensures !Included(inc, exc, names, StateAt(inc, ts, k), ts[k]) ==>
      (Cov(inc, exc, names, ts)[k] <==> ts[k].TEnd? && k > 0 && Included(inc, exc, names, StateAt(inc, ts, k - 1), ts[k - 1]))
  {
  }

  lemma StartScan(inc: seq<bytes>, ts: seq<Tok>, region: array<Region>, max: nat, base: nat, cov: seq<bool>, offs: seq<nat>)
    requires max <= region.Length && |offs| == |cov| + 1
    ensures StateAt(inc, ts, 0) == State(0, [], []) && Off(ts, 0) == 0 && Collected(region, 0, max, -1, base, Runs(cov, offs, 0), offs[0])
  {
  }

  lemma LastRegion(region: array<Region>, count: nat, max: nat, start: int, base: nat, r: seq<Region>, at: nat)
    requires Collected(region, count, max, start, base, r, at) && start != -1
    ensures 0 <= start < at && (count <= max ==> max <= region.Length && Placed(r, base) == region[..count] + [Region(base + start, at - start)])
    ensures count >= max <==> |r| > max
  {
  }

  // ------------------------------------------------------------------ what the regions mean for the tree

  /** The want of the node at p below it: 2 if its path is listed, else one less than its parent's. */
  function WantOf(inc: seq<bytes>, it: Item, path: bytes, parent: nat, p: seq<nat>): nat
    requires IsPath(it, p)
    decreases p
  {
    var q := Entered(path, it.name);
    var w := Want(inc, q, parent);
    if p == [] then w else WantOf(inc, it.items[p[0]], q, w, p[1..])
  }

  /** The root's path is "/" while it is entered and empty after a child of it. */
  function Norm(path: bytes): bytes {
    if path == [SLASH] then [] else path
  }

  predicate Rooted(path: bytes) {
    path == [] || path[0] == SLASH
  }

  lemma EnteredIs(path: bytes, name: bytes)
    requires Rooted(path)
    ensures Entered(path, name) == Norm(path) + [SLASH] + name && Rooted(Entered(path, name)) && Entered(path, name) != []
  {
  }

  lemma {:induction false} LeftIs(a: bytes, name: bytes)
    requires SLASH !in name
    ensures Left(a + [SLASH] + name) == a
    decreases |name|
  {
    var s := a + [SLASH] + name;
    if name != [] {
      var init := name[..|name| - 1];
      assert s[..|s| - 1] == a + [SLASH] + init;
      assert name[|name| - 1] in name;
      assert forall c :: c in init ==> c in name;
      LeftIs(a, init);
    } else {
      assert s[..|s| - 1] == a;
    }
  }

  /** Leaving the node entered last, with the path as it is after its children. */
  lemma LeftEntered(path: bytes, name: bytes, now: bytes)
    requires Rooted(path) && SLASH !in name && Norm(now) == Norm(Entered(path, name)) && Rooted(now)
    ensures Norm(Left(now)) == Norm(path) && Rooted(Left(now))
  {
    EnteredIs(path, name);
    LeftIs(Norm(path), name);
    if now != Entered(path, name) {
      assert Norm(path) == [] && name == [];
      LeftIs([], []);
    }
  }

  /** A subtree leaves want and stack as they were, and the path but for that. */
  ghost predicate Restored(s: State, s': State) {
    s'.want == s.want && s'.stack == s.stack && Norm(s'.path) == Norm(s.path) && Rooted(s'.path)
  }

  lemma {:induction false} StateFlat(inc: seq<bytes>, ts: seq<Tok>, a: nat, it: Item)
    requires Occurs(ts, a, Flat(it)) && SlashFree(ts) && a <= |ts| && Rooted(StateAt(inc, ts, a).path)
    ensures a + |Flat(it)| <= |ts| && Restored(StateAt(inc, ts, a), StateAt(inc, ts, a + |Flat(it)|))
    decreases it, 1
  {
    hide Flat, FlatS, Occurs, StateAt, Norm, Rooted, Entered, Left, Want;
    FlatFits(ts, a, it);
    StateNext(inc, ts, a);
    if it.Node? {
      NodeParts(ts, a, it);
      var s, b := StateAt(inc, ts, a), a + 1 + |FlatS(it.items)|;
      EnteredIs(s.path, it.name);
      StateFlatS(inc, ts, a + 1, it.items);
      StateNext(inc, ts, b);
      LeftEntered(s.path, it.name, StateAt(inc, ts, b).path);
    } else {
      LeafPart(ts, a, it);
    }
  }

  lemma {:induction false} StateFlatS(inc: seq<bytes>, ts: seq<Tok>, a: nat, its: seq<Item>)
    requires Occurs(ts, a, FlatS(its)) && SlashFree(ts) && a <= |ts| && Rooted(StateAt(inc, ts, a).path)
    ensures a + |FlatS(its)| <= |ts| && Restored(StateAt(inc, ts, a), StateAt(inc, ts, a + |FlatS(its)|))
    decreases its, 0
  {
    hide Flat, Occurs, StateAt, Norm, Rooted;
    if its != [] {
      OccursCat(ts, a, Flat(its[0]), FlatS(its[1..]));
      StateFlat(inc, ts, a, its[0]);
      StateFlatS(inc, ts, a + |Flat(its[0])|, its[1..]);
    }
  }

  /** The path strings on the way to a node. */
  function PathAt(it: Item, path: bytes, p: seq<nat>): bytes
    requires IsPath(it, p)
    decreases p
  {
    var q := Entered(path, it.name);
    if p == [] then q else PathAt(it.items[p[0]], q, p[1..])
  }

  lemma {:induction false} WantLast(inc: seq<bytes>, it: Item, path: bytes, parent: nat, q: seq<nat>, k: nat)
    requires IsPath(it, q) && k < |At(it, q).items| && At(it, q).items[k].Node?
    ensures IsPath(it, q + [k])
    ensures PathAt(it, path, q + [k]) == Entered(PathAt(it, path, q), At(it, q).items[k].name)
    ensures WantOf(inc, it, path, parent, q + [k]) == Want(inc, PathAt(it, path, q + [k]), WantOf(inc, it, path, parent, q))
    decreases q
  {
    hide Want, Entered;
    if q == [] {
      assert (q + [k])[1..] == [];
    } else {
      assert (q + [k])[1..] == q[1..] + [k];
      var e := Entered(path, it.name);
      WantLast(inc, it.items[q[0]], e, Want(inc, e, parent), q[1..], k);
    }
  }

  /** Inside the node at p, and past its first k items, the scan has that node's path and want. */
  lemma {:induction false} StateInside(inc: seq<bytes>, root: Item, p: seq<nat>, k: nat)
    requires root.Node? && IsPath(root, p) && k <= |At(root, p).items| && SlashFree(Block(root))
    ensures ItemPos(root, p, k) <= |Block(root)|
    ensures var s := StateAt(inc, Block(root), ItemPos(root, p, k));
      s.want == WantOf(inc, root, [], 0, p) && Norm(s.path) == Norm(PathAt(root, [], p)) && Rooted(s.path)
    decreases |p|
  {
    hide Flat, FlatS, Block, Occurs, Pre, Post, StateAt, Entered, Left, Want, IsPath, At, WantOf, PathAt, Norm, Rooted, SlashFree, NodePos, ItemPos;
    var ts, i := Block(root), NodePos(root, p);
    InsidePos(root, p, k);
    StateBefore(inc, root, p);
    StateNext(inc, ts, i);
    StateFlatS(inc, ts, i + 1, At(root, p).items[..k]);
  }

  lemma InsidePos(root: Item, p: seq<nat>, k: nat)
    requires IsPath(root, p) && k <= |At(root, p).items|
    ensures var ts, i, n := Block(root), NodePos(root, p), At(root, p);
      && i < |ts| && ts[i] == TBegin(n.name, n.npad) && Occurs(ts, i + 1, FlatS(n.items[..k]))
      && ItemPos(root, p, k) == i + 1 + |FlatS(n.items[..k])| <= |ts|
  {
    hide Flat, FlatS, Block, Occurs, Pre, Post, At, IsPath;
    NodeTokens(root, p);
    BlockAt(root, p, k);
    SplitItems(Block(root), NodePos(root, p) + 1, At(root, p).items, k);
  }

  /** What entering the node at p makes of the state before it. */
  lemma {:induction false} StateBefore(inc: seq<bytes>, root: Item, p: seq<nat>)
    requires root.Node? && IsPath(root, p) && SlashFree(Block(root))
    ensures NodePos(root, p) < |Block(root)|
    ensures var s := StateAt(inc, Block(root), NodePos(root, p)); var q := Entered(s.path, At(root, p).name);
      Rooted(s.path) && Rooted(q) && q == PathAt(root, [], p) && Want(inc, q, s.want) == WantOf(inc, root, [], 0, p)
    decreases |p|, 0
  {
    hide Flat, FlatS, Block, Occurs, Pre, Post, StateAt, Entered, Left, Want, IsPath, At, WantOf, PathAt, Norm, Rooted, SlashFree;
    NodeTokens(root, p);
    if p == [] {
      RootState(inc, root);
    } else {
      var q, k := p[..|p| - 1], p[|p| - 1];
      PrefixPath(root, p, |p| - 1);
      assert p == q + [k] && p[|p| - 1..] == [k];
      LastStep(At(root, q), k);
      KidPath(root, q, k);
      StateInside(inc, root, q, k);
      WantLast(inc, root, [], 0, q, k);
      var s := StateAt(inc, Block(root), ItemPos(root, q, k));
      SameEntered(s.path, PathAt(root, [], q), At(root, p).name);
    }
  }

  lemma SameEntered(a: bytes, b: bytes, name: bytes)
    requires Norm(a) == Norm(b) && Rooted(a)
    ensures Rooted(b) && Entered(a, name) == Entered(b, name) && Rooted(Entered(a, name))
  {
    EnteredIs(a, name);
    EnteredIs(b, name);
  }

  lemma RootState(inc: seq<bytes>, root: Item)
    requires root.Node?
    ensures NodePos(root, []) == 0 && StateAt(inc, Block(root), 0) == State(0, [], []) && Rooted([]) && At(root, []) == root
    ensures var q := Entered([], root.name); Rooted(q) && q == PathAt(root, [], []) && Want(inc, q, 0) == WantOf(inc, root, [], 0, [])
  {
  }

  /** The node at p or its parent is listed. */
  predicate ListedAbove(inc: seq<bytes>, root: Item, p: seq<nat>)
    requires IsPath(root, p)
  {
    PathAt(root, [], p) in inc || (p != [] && IsPath(root, p[..|p| - 1]) && PathAt(root, [], p[..|p| - 1]) in inc)
  }

  /** Want 2 is for listed nodes, want 1 for the children of listed nodes, and the stack of wants goes no deeper. */
  lemma {:induction false} WantListed(inc: seq<bytes>, root: Item, p: seq<nat>)
    requires root.Node? && IsPath(root, p)
    ensures WantOf(inc, root, [], 0, p) <= 2
    ensures WantOf(inc, root, [], 0, p) == 2 <==> PathAt(root, [], p) in inc
    ensures WantOf(inc, root, [], 0, p) > 0 <==> ListedAbove(inc, root, p)
    decreases |p|
  {
    hide At, IsPath, Entered;
    if p == [] {
      RootPath(root);
    } else {
      var q, k := p[..|p| - 1], p[|p| - 1];
      PrefixPath(root, p, |p| - 1);
      assert p == q + [k] && p[|p| - 1..] == [k];
      LastStep(At(root, q), k);
      WantLast(inc, root, [], 0, q, k);
      WantListed(inc, root, q);
    }
  }

  /** A property is covered exactly when its node is listed and its name is not excluded. */
  lemma PropertyCovered(inc: seq<bytes>, exc: seq<bytes>, names: bytes, root: Item, p: seq<nat>, k: nat)
    requires root.Node? && IsPath(root, p) && k < |At(root, p).items| && At(root, p).items[k].Prop? && SlashFree(Block(root))
    ensures ItemPos(root, p, k) < |Block(root)|
    ensures Covered(inc, exc, names, Block(root), ItemPos(root, p, k)) <==>
      (PathAt(root, [], p) in inc && StrAt(names, At(root, p).items[k].nameoff) !in exc)
  {
    hide Flat, FlatS, Block, Pre, Post, StateAt, WantOf, PathAt, SlashFree, At, StrAt, Norm, Rooted;
    ItemTokens(root, p, k);
    LeafTok(Block(root), ItemPos(root, p, k), At(root, p).items[k]);
    StateInside(inc, root, p, k);
    WantListed(inc, root, p);
  }

  /** The tag and name of a node are covered exactly when it or its parent is listed. */
  lemma NodeCovered(inc: seq<bytes>, exc: seq<bytes>, names: bytes, root: Item, p: seq<nat>)
    requires root.Node? && IsPath(root, p) && SlashFree(Block(root))
    ensures NodePos(root, p) < |Block(root)|
    ensures Covered(inc, exc, names, Block(root), NodePos(root, p)) <==> ListedAbove(inc, root, p)
  {
    hide Flat, FlatS, Block, Pre, Post, StateAt, WantOf, PathAt, SlashFree, At, Entered, Want, ListedAbove;
    NodeTokens(root, p);
    StateBefore(inc, root, p);
    WantListed(inc, root, p);
  }

  /** A NOP tag inside a node is covered exactly when the node is listed. */
  lemma NopCovered(inc: seq<bytes>, exc: seq<bytes>, names: bytes, root: Item, p: seq<nat>, k: nat)
    requires root.Node? && IsPath(root, p) && k < |At(root, p).items| && At(root, p).items[k].Nop? && SlashFree(Block(root))
    ensures ItemPos(root, p, k) < |Block(root)|
    ensures Covered(inc, exc, names, Block(root), ItemPos(root, p, k)) <==> PathAt(root, [], p) in inc
  {
    hide Flat, FlatS, Block, Pre, Post, StateAt, WantOf, PathAt, SlashFree, At, StrAt, Norm, Rooted;
    ItemTokens(root, p, k);
    LeafTok(Block(root), ItemPos(root, p, k), At(root, p).items[k]);
    StateInside(inc, root, p, k);
    WantListed(inc, root, p);
  }

  /** The END_NODE of a node is covered exactly when the node or its parent is listed, or its last item is a listed child. */
  lemma EndCovered(inc: seq<bytes>, exc: seq<bytes>, names: bytes, root: Item, p: seq<nat>)
    requires root.Node? && IsPath(root, p) && SlashFree(Block(root))
    ensures var its := At(root, p).items; var e := ItemPos(root, p, |its|);
      && e < |Block(root)| && Block(root)[e].TEnd?
      && (Covered(inc, exc, names, Block(root), e) <==>
            ListedAbove(inc, root, p) ||
            (its != [] && its[|its| - 1].Node? && IsPath(root, p + [|its| - 1]) && PathAt(root, [], p + [|its| - 1]) in inc))
  {
    hide Flat, FlatS, Block, Pre, Post, StateAt, WantOf, PathAt, SlashFree, At, StrAt, Norm, Rooted, IsPath, Occurs, Included, NodePos, ItemPos, ListedAbove, PrevIncluded;
    var its, ts := At(root, p).items, Block(root);
    NodeTokens(root, p);
    StateInside(inc, root, p, |its|);
    WantListed(inc, root, p);
    EndIncluded(inc, exc, names, StateAt(inc, ts, ItemPos(root, p, |its|)), ts[ItemPos(root, p, |its|)]);
    CoveredEnd(inc, exc, names, ts, ItemPos(root, p, |its|));
    if its == [] {
      AfterTag(inc, exc, names, root, p);
    } else if its[|its| - 1].Node? {
      AfterKid(inc, exc, names, root, p);
    } else {
      AfterLeaf(inc, exc, names, root, p);
    }
  }

  /** Whether the token before token e is included. */
  predicate PrevIncluded(inc: seq<bytes>, exc: seq<bytes>, names: bytes, ts: seq<Tok>, e: nat) {
    0 < e <= |ts| && Included(inc, exc, names, StateAt(inc, ts, e - 1), ts[e - 1])
  }

  lemma EndIncluded(inc: seq<bytes>, exc: seq<bytes>, names: bytes, s: State, t: Tok)
    ensures t.TEnd? ==> (Included(inc, exc, names, s, t) <==> s.want > 0)
  {
  }

  lemma CoveredEnd(inc: seq<bytes>, exc: seq<bytes>, names: bytes, ts: seq<Tok>, e: nat)
    requires e < |ts| && ts[e].TEnd?
    ensures Covered(inc, exc, names, ts, e) <==> Included(inc, exc, names, StateAt(inc, ts, e), ts[e]) || PrevIncluded(inc, exc, names, ts, e)
  {
  }

  /** The END_NODE of an empty node follows its tag. */
  lemma AfterTag(inc: seq<bytes>, exc: seq<bytes>, names: bytes, root: Item, p: seq<nat>)
    requires root.Node? && IsPath(root, p) && SlashFree(Block(root)) && At(root, p).items == []
    ensures PrevIncluded(inc, exc, names, Block(root), ItemPos(root, p, 0)) <==> ListedAbove(inc, root, p)
  {
    hide Flat, FlatS, Block, Pre, Post, StateAt, WantOf, PathAt, SlashFree, At, IsPath, Entered, Want, ListedAbove, NodePos, ItemPos, Occurs;
    NodeTokens(root, p);
    StateBefore(inc, root, p);
    WantListed(inc, root, p);
    PosFirst(root, p);
  }

  /** The END_NODE after a property or NOP. */
  lemma AfterLeaf(inc: seq<bytes>, exc: seq<bytes>, names: bytes, root: Item, p: seq<nat>)
    requires root.Node? && IsPath(root, p) && SlashFree(Block(root))
    requires var its := At(root, p).items; its != [] && !its[|its| - 1].Node?
    ensures PrevIncluded(inc, exc, names, Block(root), ItemPos(root, p, |At(root, p).items|)) ==> ListedAbove(inc, root, p)
  {
    hide Flat, FlatS, Block, Pre, Post, StateAt, WantOf, PathAt, SlashFree, At, StrAt, Norm, Rooted, IsPath, ListedAbove, NodePos, ItemPos, Occurs;
    var its := At(root, p).items;
    LastLeafPos(root, p);
    StateInside(inc, root, p, |its| - 1);
    WantListed(inc, root, p);
  }

  /** The END_NODE after that of the last child. */
  lemma AfterKid(inc: seq<bytes>, exc: seq<bytes>, names: bytes, root: Item, p: seq<nat>)
    requires root.Node? && IsPath(root, p) && SlashFree(Block(root))
    requires var its := At(root, p).items; its != [] && its[|its| - 1].Node?
    ensures var its := At(root, p).items; var q := p + [|its| - 1];
      && IsPath(root, q) && (PathAt(root, [], p) in inc ==> ListedAbove(inc, root, p))
      && (PrevIncluded(inc, exc, names, Block(root), ItemPos(root, p, |its|)) <==> PathAt(root, [], q) in inc || PathAt(root, [], p) in inc)
  {
    hide Flat, FlatS, Block, Pre, Post, StateAt, WantOf, PathAt, SlashFree, At, StrAt, Norm, Rooted, IsPath, ListedAbove, NodePos, ItemPos, Occurs, Included;
    var its, ts := At(root, p).items, Block(root);
    var q := p + [|its| - 1];
    LastKidPos(root, p);
    var e := ItemPos(root, q, |At(root, q).items|);
    StateInside(inc, root, q, |At(root, q).items|);
    EndIncluded(inc, exc, names, StateAt(inc, ts, e), ts[e]);
    WantListed(inc, root, q);
    ListedChild(inc, root, p, |its| - 1);
  }

  lemma LastLeafPos(root: Item, p: seq<nat>)
    requires IsPath(root, p) && At(root, p).items != [] && !At(root, p).items[|At(root, p).items| - 1].Node?
    ensures var n, ts := |At(root, p).items|, Block(root);
      && ItemPos(root, p, n) == ItemPos(root, p, n - 1) + 1 <= |ts|
      && (ts[ItemPos(root, p, n - 1)].TNop? || ts[ItemPos(root, p, n - 1)].TProp?)
  {
    hide Flat, FlatS, Block, At, IsPath, NodePos, ItemPos, Occurs;
    var its := At(root, p).items;
    ItemTokens(root, p, |its| - 1);
    LeafTok(Block(root), ItemPos(root, p, |its| - 1), its[|its| - 1]);
  }

  lemma LastKidPos(root: Item, p: seq<nat>)
    requires IsPath(root, p) && At(root, p).items != [] && At(root, p).items[|At(root, p).items| - 1].Node?
    ensures var n, ts := |At(root, p).items|, Block(root); var q := p + [n - 1];
      && IsPath(root, q) && ItemPos(root, p, n) == ItemPos(root, q, |At(root, q).items|) + 1 <= |ts|
      && ts[ItemPos(root, q, |At(root, q).items|)].TEnd?
  {
    hide Flat, FlatS, Block, At, IsPath, NodePos, ItemPos, Occurs, Pre, Post, Off, ItemOff, NodeOff;
    var its := At(root, p).items;
    ItemTokens(root, p, |its| - 1);
    NodeTokens(root, p + [|its| - 1]);
  }

  lemma PosFirst(root: Item, p: seq<nat>)
    requires IsPath(root, p) && At(root, p).items == []
    ensures ItemPos(root, p, 0) == NodePos(root, p) + 1
  {
    hide At, NodePos;
  }

  lemma ListedChild(inc: seq<bytes>, root: Item, p: seq<nat>, k: nat)
    requires IsPath(root, p) && IsPath(root, p + [k])
    ensures ListedAbove(inc, root, p + [k]) <==> PathAt(root, [], p + [k]) in inc || PathAt(root, [], p) in inc
    ensures PathAt(root, [], p) in inc ==> ListedAbove(inc, root, p)
  {
    hide PathAt, IsPath;
    assert (p + [k])[..|p + [k]| - 1] == p;
  }

  /** The regions are not empty, in order, disjoint, and do not touch. */
  lemma RegionsInOrder(inc: seq<bytes>, exc: seq<bytes>, names: bytes, ts: seq<Tok>, base: nat, i: nat)
    requires i < |RegionsOf(inc, exc, names, ts, base)|
    ensures var r := RegionsOf(inc, exc, names, ts, base);
      r[i].size > 0 && r[i].offset >= base && (i + 1 < |r| ==> r[i].offset + r[i].size < r[i + 1].offset)
  {
    hide Off, Covered, Runs;
    var cov, offs := Cov(inc, exc, names, ts), Offs(ts);
    OffsRise(ts);
    RunsApart(cov, offs, |ts|);
    ApartAt(Runs(cov, offs, |ts|), offs[|ts|], i);
  }

  lemma RunsEnd(cov: seq<bool>, offs: seq<nat>, k: nat)
    requires 0 < k <= |cov| && |offs| == |cov| + 1 && cov[k - 1] && offs[k - 1] < offs[k]
    ensures var r := Runs(cov, offs, k); r != [] && r[|r| - 1].offset + r[|r| - 1].size == offs[k]
  {
  }

  /**
    The last region goes on to the end of the structure block; with the strings asked for it takes as
    many bytes more as they have, and no other region is different.
   */
  lemma TableHeld(inc: seq<bytes>, exc: seq<bytes>, names: bytes, ts: seq<Tok>, base: nat, n: nat)
    requires ts != [] && ts[|ts| - 1].TFin?
    ensures var r := RegionsOf(inc, exc, names, ts, base); var w, l := WithTable(r, n), |r| - 1;
      && |w| == |r| > 0 && (forall i :: 0 <= i < l ==> w[i] == r[i])
      && r[l].offset + r[l].size == base + Off(ts, |ts|) && w[l] == Region(r[l].offset, r[l].size + n)
  {
    hide Off, StateAt, Runs;
    var cov, offs, k := Cov(inc, exc, names, ts), Offs(ts), |ts|;
    OffsRise(ts);
    CoveredIs(inc, exc, names, ts, k - 1);
    FinInside(inc, exc, names, StateAt(inc, ts, k - 1), ts[k - 1]);
    assert offs[k - 1] < offs[k - 1 + 1];
    RunsEnd(cov, offs, k);
  }

  /** So the last region holds the strings block exactly if that follows the structure block directly. */
  lemma StringsHeld(f: Fdt, inc: seq<bytes>, exc: seq<bytes>)
    requires f.Valid() && f.hdr.sizeStrings > 0
    ensures var r := RegionsOf(inc, exc, f.Strings(), Block(f.root), f.hdr.offStruct);
      var w := WithTable(r, f.hdr.sizeStrings); var l := |w| - 1;
      && 0 <= l && w[l].offset < f.hdr.offStruct + f.hdr.sizeStruct
      && (f.hdr.offStrings + f.hdr.sizeStrings <= w[l].offset + w[l].size <==> f.hdr.offStrings == f.hdr.offStruct + f.hdr.sizeStruct)
  {
    hide Off, Flat, Runs, StateAt, StringsOf;
    WfLaid(f.hdr, f.mem[..], f.root, f.rsv);
    WholeBlock(f);
    var ts, base := Block(f.root), f.hdr.offStruct;
    TableHeld(inc, exc, f.Strings(), ts, base, f.hdr.sizeStrings);
    RegionsInOrder(inc, exc, f.Strings(), ts, base, |RegionsOf(inc, exc, f.Strings(), ts, base)| - 1);
    BlocksOrdered(f);
  }

  lemma BlocksOrdered(f: Fdt)
    requires f.Valid()
    ensures f.hdr.offStruct + f.hdr.sizeStruct <= f.hdr.offStrings
  {
    hide Flat, Enc, OkItem;
  }

  /** No byte of a token that is not covered is in any region, and every byte of one that is. */
  lemma TokenBytesHeld(inc: seq<bytes>, exc: seq<bytes>, names: bytes, ts: seq<Tok>, i: nat, x: int)
    requires i < |ts| && Off(ts, i) <= x < Off(ts, i + 1)
    ensures Holds(Runs(Cov(inc, exc, names, ts), Offs(ts), |ts|), x) <==> Covered(inc, exc, names, ts, i)
  {
    hide Off, Covered, Runs, Holds, CoveredByte;
    var cov, offs := Cov(inc, exc, names, ts), Offs(ts);
    OffsRise(ts);
    RunsCover(cov, offs, |ts|, x);
    CoveredByteIs(cov, offs, |ts|, x);
    if CoveredByte(cov, offs, |ts|, x) {
      var j :| 0 <= j < |ts| && cov[j] && offs[j] <= x < offs[j + 1];
      SpanUnique(ts, i, j, x);
    }
    if cov[i] {
      assert offs[i] <= x < offs[i + 1];
    }
  }

  lemma SpanUnique(ts: seq<Tok>, i: nat, j: nat, x: int)
    requires i < |ts| && j < |ts| && Off(ts, i) <= x < Off(ts, i + 1) && Off(ts, j) <= x < Off(ts, j + 1)
    ensures i == j
  {
    hide Off;
    if j < i {
      OffMono(ts, j + 1, i);
    } else if j > i {
      OffMono(ts, i + 1, j);
    }
  }

  // ------------------------------------------------------------------ what a signature does not see

  lemma SameStep(inc: seq<bytes>, s: State, t: Tok, v: bytes)
    ensures t.TProp? ==> Step(inc, s, t.(value := v)) == Step(inc, s, t)
  {
  }

  lemma SameTokens(inc: seq<bytes>, ts: seq<Tok>, i: nat, v: bytes, k: nat)
    requires i < |ts| && ts[i].TProp? && k <= |ts|
    ensures StateAt(inc, ts[i := ts[i].(value := v)], k) == StateAt(inc, ts, k)
  {
    hide Step;
    if k > 0 {
      SameTokens(inc, ts, i, v, k - 1);
      SameStep(inc, StateAt(inc, ts, k - 1), ts[k - 1], v);
    }
  }

  lemma SameOff(ts: seq<Tok>, i: nat, v: bytes, k: nat)
    requires i < |ts| && ts[i].TProp? && |v| == |ts[i].value| && k <= |ts|
    ensures Off(ts[i := ts[i].(value := v)], k) == Off(ts, k)
  {
    hide Off, EncTok, Enc;
    var us := ts[i := ts[i].(value := v)];
    if k > 0 {
      SameOff(ts, i, v, k - 1);
      EncAt(ts, k - 1);
      EncAt(us, k - 1);
      SameLength(ts[k - 1], v);
    } else {
      OffZero(ts);
      OffZero(us);
    }
  }

  lemma SameLength(t: Tok, v: bytes)
    ensures t.TProp? && |v| == |t.value| ==> |EncTok(t.(value := v))| == |EncTok(t)|
  {
    hide BE32;
  }

  /** Another value of the same length leaves the list of regions as it is. */
  lemma RegionsKept(inc: seq<bytes>, exc: seq<bytes>, names: bytes, ts: seq<Tok>, i: nat, v: bytes, base: nat)
    requires i < |ts| && ts[i].TProp? && |v| == |ts[i].value|
    ensures RegionsOf(inc, exc, names, ts[i := ts[i].(value := v)], base) == RegionsOf(inc, exc, names, ts, base)
  {
    hide Off, StateAt, StrAt;
    var us := ts[i := ts[i].(value := v)];
    forall k | 0 <= k < |ts|
      ensures Covered(inc, exc, names, us, k) == Covered(inc, exc, names, ts, k)
    {
      SameTokens(inc, ts, i, v, k);
      if k > 0 {
        SameTokens(inc, ts, i, v, k - 1);
      }
    }
    forall k | 0 <= k <= |ts|
      ensures Off(us, k) == Off(ts, k)
    {
      SameOff(ts, i, v, k);
    }
    assert Cov(inc, exc, names, us) == Cov(inc, exc, names, ts);
    assert Offs(us) == Offs(ts);
  }

  /** And if the property is not covered, no region's contents see the difference. */
  lemma ContentsKept(inc: seq<bytes>, exc: seq<bytes>, names: bytes, ts: seq<Tok>, i: nat, base: nat, m: bytes, m': bytes, r: Region)
    requires i < |ts| && !Covered(inc, exc, names, ts, i) && r in RegionsOf(inc, exc, names, ts, base)
    requires |m| == |m'| && r.offset + r.size <= |m|
    requires forall x :: 0 <= x < |m| && !(base + Off(ts, i) <= x < base + Off(ts, i + 1)) ==> m'[x] == m[x]
    ensures m'[r.offset..r.offset + r.size] == m[r.offset..r.offset + r.size]
  {
    hide Off, Runs, Covered;
    var rs := Runs(Cov(inc, exc, names, ts), Offs(ts), |ts|);
    var n :| 0 <= n < |rs| && Placed(rs, base)[n] == r;
    forall x | r.offset <= x < r.offset + r.size
      ensures m'[x] == m[x]
    {
      InRegion(rs, n, x - base);
      if base + Off(ts, i) <= x < base + Off(ts, i + 1) {
        TokenBytesHeld(inc, exc, names, ts, i, x - base);
      }
    }
  }

  lemma InRegion(rs: seq<Region>, n: nat, x: int)
    requires n < |rs| && rs[n].offset <= x < rs[n].offset + rs[n].size
    ensures Holds(rs, x)
  {
    HoldsIs(rs, x);
  }
}
