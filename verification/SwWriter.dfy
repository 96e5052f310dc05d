/**
  fdt_sw.c: the sequential writer.  The structure block grows up from the reservations, the
  strings block grows down from the end of the buffer, and a property holds the (negative)
  distance of its name from that end until fdt_finish makes it an offset.
 */
module SwWriter {
  import opened Bytes
  import opened Tokens
  import opened Tree
  import opened Meaning
  import opened Blob
  import opened Scan
  import opened TreeWalk
  import opened Splicing
  import opened Rw

  const FDT_ERR_BADFLAGS: int := 18
  const FDT_CREATE_FLAG_NO_NAME_DEDUP: nat := 1
  /** FDT_ALIGN(sizeof(struct fdt_header), sizeof(struct fdt_reserve_entry)) */
  const SW_HEADER: nat := 48

  /** One call that succeeded. */
  datatype Event = BeginNode(name: bytes) | Prop(name: bytes, value: bytes) | EndNode

  function PropEvents(ps: seq<DProp>): seq<Event> {
    if ps == [] then [] else [Event.Prop(ps[0].name, ps[0].value)] + PropEvents(ps[1..])
  }

  /** The calls that describe d: properly nested, the properties of a node before its subnodes. */
  function Events(d: DT): seq<Event>
    decreases d, 1
  {
    [BeginNode(d.name)] + PropEvents(d.props) + KidEvents(d.kids) + [EndNode]
  }

  function KidEvents(ks: seq<DT>): seq<Event>
    decreases ks, 0
  {
    if ks == [] then [] else Events(ks[0]) + KidEvents(ks[1..])
  }

  // ------------------------------------------------------------------ from calls to a tree

  /** Token k records event e, its name being a string of t. */
  ghost predicate Records(t: bytes, e: Event, k: Tok) {
    OkTok(k) &&
    match e
    case BeginNode(n) => k.TBegin? && k.name == n
    case Prop(n, v) => k.TProp? && k.value == v && Terminated(t, k.nameoff) && StrAt(t, k.nameoff) == n
    case EndNode => k.TEnd?
  }

  ghost predicate RecordsAll(t: bytes, es: seq<Event>, ts: seq<Tok>) {
    |es| == |ts| && forall i :: 0 <= i < |ts| ==> Records(t, es[i], ts[i])
  }

  lemma RecordsSplit(t: bytes, a: seq<Event>, b: seq<Event>, ts: seq<Tok>)
    requires RecordsAll(t, a + b, ts)
    ensures |ts| == |a| + |b| && RecordsAll(t, a, ts[..|a|]) && RecordsAll(t, b, ts[|a|..])
  {
    forall i | 0 <= i < |a|
      ensures Records(t, a[i], ts[..|a|][i])
    {
      assert (a + b)[i] == a[i];
    }
    forall i | 0 <= i < |b|
      ensures Records(t, b[i], ts[|a|..][i])
    {
      assert (a + b)[|a| + i] == b[i];
    }
  }

  /** One more item in front. */
  lemma MoreItems(t: bytes, it: Item, rest: seq<Item>)
    ensures FlatS([it] + rest) == Flat(it) + FlatS(rest) && (OkItems(t, [it] + rest) <==> OkItem(t, it) && OkItems(t, rest))
    ensures it.Prop? ==> PropsOf(t, [it] + rest) == [DProp(StrAt(t, it.nameoff), it.value)] + PropsOf(t, rest) && KidsOf(t, [it] + rest) == KidsOf(t, rest)
    ensures it.Node? ==> KidsOf(t, [it] + rest) == [Mean(t, it)] + KidsOf(t, rest) && PropsOf(t, [it] + rest) == PropsOf(t, rest)
  {
    hide Flat, Mean, StrAt, OkItem;
    assert ([it] + rest)[1..] == rest;
    assert forall i :: 0 <= i < |rest| ==> ([it] + rest)[i + 1] == rest[i];
  }

  lemma PropItem(t: bytes, d: DProp, k: Tok)
    requires Records(t, Event.Prop(d.name, d.value), k)
    ensures k.TProp? && d == DProp(StrAt(t, k.nameoff), k.value)
    ensures var it := Item.Prop(k.nameoff, k.value, k.ppad); Flat(it) == [k] && OkItem(t, it)
  {
    hide StrAt, Terminated;
  }

  lemma {:induction false} BuildProps(t: bytes, ps: seq<DProp>, ts: seq<Tok>) returns (its: seq<Item>)
    requires RecordsAll(t, PropEvents(ps), ts)
    ensures FlatS(its) == ts && OkItems(t, its) && PropsOf(t, its) == ps && KidsOf(t, its) == []
    ensures forall i :: 0 <= i < |its| ==> its[i].Prop?
  {
    if ps == [] {
      its := [];
    } else {
      hide FlatS, Flat, PropsOf, KidsOf, OkItem, Records;
      RecordsSplit(t, [Event.Prop(ps[0].name, ps[0].value)], PropEvents(ps[1..]), ts);
      var k := ts[0];
      assert Records(t, PropEvents(ps)[0], k);
      var rest := BuildProps(t, ps[1..], ts[1..]);
      var it := Item.Prop(k.nameoff, k.value, k.ppad);
      PropItem(t, ps[0], k);
      MoreItems(t, it, rest);
      its := [it] + rest;
      assert ts == [k] + ts[1..] && ps == [ps[0]] + ps[1..];
    }
  }

  /** Every properly nested list of calls is the tokens of a well-formed tree that means what was described. */
  lemma {:induction false} BuildNode(t: bytes, d: DT, ts: seq<Tok>) returns (it: Item)
    requires RecordsAll(t, Events(d), ts)
    ensures it.Node? && Flat(it) == ts && OkItem(t, it) && Mean(t, it) == d
    decreases d, 1
  {
    hide PropEvents, KidEvents, FlatS, PropsOf, KidsOf, Terminated, StrAt;
    var a, b := PropEvents(d.props), KidEvents(d.kids);
    RecordsSplit(t, [BeginNode(d.name)] + a + b, [EndNode], ts);
    var u := ts[..1 + |a| + |b|];
    RecordsSplit(t, [BeginNode(d.name)] + a, b, u);
    RecordsSplit(t, [BeginNode(d.name)], a, u[..1 + |a|]);
    var props := BuildProps(t, d.props, u[..1 + |a|][1..]);
    var kids := BuildKids(t, d.kids, u[1 + |a|..]);
    var k := ts[0];
    assert Records(t, Events(d)[0], k);
    assert Records(t, Events(d)[|ts| - 1], ts[|ts| - 1]);
    it := Item.Node(k.name, k.npad, props + kids);
    FlatSConcat(props, kids);
    PropsOfConcat(t, props, kids);
    KidsOfConcat(t, props, kids);
    Pieces(k, u[..1 + |a|][1..], u[1 + |a|..], ts);
  }

  lemma Pieces(k: Tok, p: seq<Tok>, c: seq<Tok>, ts: seq<Tok>)
    requires |ts| == 2 + |p| + |c| && ts[0] == k && ts[|ts| - 1] == TEnd
    requires ts[1..1 + |p|] == p && ts[1 + |p|..|ts| - 1] == c
    ensures [k] + (p + c) + [TEnd] == ts
  {
  }

  lemma {:induction false} BuildKids(t: bytes, ks: seq<DT>, ts: seq<Tok>) returns (its: seq<Item>)
    requires RecordsAll(t, KidEvents(ks), ts)
    ensures FlatS(its) == ts && OkItems(t, its) && PropsOf(t, its) == [] && KidsOf(t, its) == ks
    ensures forall i :: 0 <= i < |its| ==> its[i].Node?
    decreases ks, 0
  {
    if ks == [] {
      its := [];
    } else {
      hide FlatS, Flat, PropsOf, KidsOf, Mean, OkItem, OkItems, RecordsAll, Events;
      var n := |Events(ks[0])|;
      RecordsSplit(t, Events(ks[0]), KidEvents(ks[1..]), ts);
      var it := BuildNode(t, ks[0], ts[..n]);
      var rest := BuildKids(t, ks[1..], ts[n..]);
      MoreItems(t, it, rest);
      its := [it] + rest;
      assert ts == ts[..n] + ts[n..] && ks == [ks[0]] + ks[1..];
    }
  }

  // ------------------------------------------------------------------ the partial blob

  /** What token k will be once names are counted from the start of a table of n bytes. */
  function Rebased(k: Tok, n: nat): Tok {
    if k.TProp? then k.(nameoff := (k.nameoff + n) % TWO32) else k
  }

  function RebasedAll(ts: seq<Tok>, n: nat): seq<Tok> {
    seq(|ts|, i requires 0 <= i < |ts| => Rebased(ts[i], n))
  }

  /** Token k, with a negative name offset, records e. */
  ghost predicate Drafts(t: bytes, e: Event, k: Tok) {
    && OkTok(k) && |t| < INT32_MAX && Records(t, e, Rebased(k, |t|))
    && (k.TProp? ==> TWO32 - |t| <= k.nameoff)
  }

  ghost predicate DraftsAll(t: bytes, es: seq<Event>, ts: seq<Tok>) {
    |es| == |ts| && forall i :: 0 <= i < |ts| ==> Drafts(t, es[i], ts[i])
  }

  /** The end of the structure block so far. */
  function Top(h: Header): nat {
    h.offStruct + h.sizeStruct
  }

  /** The strings so far, at the end of the buffer. */
  function Table(h: Header, m: bytes): bytes {
    if h.sizeStrings <= h.totalsize <= |m| then m[h.totalsize - h.sizeStrings..h.totalsize] else []
  }

  /** After fdt_create: reservations l so far. */
  ghost predicate Reserving(h: Header, m: bytes, l: seq<Rsv>) {
    && h.magic == FDT_SW_MAGIC && h.version == 17 && h.totalsize <= |m| && h.totalsize < INT32_MAX
    && h.offRsv == SW_HEADER && h.offStruct == SW_HEADER + 16 * |l| <= h.totalsize
    && h.offStrings == 0 && h.sizeStruct == 0 && h.sizeStrings == 0
    && OkRsv(l) && Occurs(m, SW_HEADER, EncRsv(l))
  }

  /** After fdt_finish_reservemap: the calls es are recorded by tokens ts, and strings never meet the structure. */
  ghost predicate Writing(h: Header, m: bytes, l: seq<Rsv>, es: seq<Event>, ts: seq<Tok>) {
    && h.magic == FDT_SW_MAGIC && h.version == 17 && h.totalsize <= |m| && h.totalsize < INT32_MAX
    && h.offRsv == SW_HEADER && h.offStruct == SW_HEADER + |RsvBlock(l)|
    && h.offStrings == h.totalsize && Top(h) + h.sizeStrings <= h.totalsize
    && OkRsv(l) && Occurs(m, SW_HEADER, RsvBlock(l))
    && h.sizeStruct == |Enc(ts)| && Occurs(m, h.offStruct, Enc(ts))
    && DraftsAll(Table(h, m), es, ts)
  }

  lemma TableAt(h: Header, m: bytes, t: bytes)
    requires h.sizeStrings <= h.totalsize <= |m|
    ensures Table(h, m) == t <==> |t| == h.sizeStrings && Occurs(m, h.totalsize - h.sizeStrings, t)
  {
  }

  /** What is in the gap between structure and strings does not matter. */
  lemma GapFree(h: Header, m: bytes, l: seq<Rsv>, es: seq<Event>, ts: seq<Tok>, m': bytes)
    requires Writing(h, m, l, es, ts) && SameOutside(m, m', Top(h), h.totalsize - h.sizeStrings - Top(h))
    ensures Writing(h, m', l, es, ts) && Table(h, m') == Table(h, m)
  {
    hide Enc, RsvBlock, Table, DraftsAll, Occurs, SameOutside;
    var n := h.totalsize - h.sizeStrings - Top(h);
    SameKeeps(m, m', Top(h), n, SW_HEADER, RsvBlock(l));
    SameKeeps(m, m', Top(h), n, h.offStruct, Enc(ts));
    TableAt(h, m, Table(h, m));
    SameKeeps(m, m', Top(h), n, h.totalsize - h.sizeStrings, Table(h, m));
    SameLength(m, m', Top(h), n);
    TableAt(h, m', Table(h, m));
  }

  /** A record stored in the space grabbed at the top extends the run by one call. */
  lemma Grown(h: Header, m: bytes, l: seq<Rsv>, es: seq<Event>, ts: seq<Tok>, e: Event, k: Tok)
    requires Writing(h, m, l, es, ts) && Drafts(Table(h, m), e, k)
    requires Top(h) + |EncTok(k)| + h.sizeStrings <= h.totalsize && Occurs(m, Top(h), EncTok(k))
    ensures Writing(h.(sizeStruct := h.sizeStruct + |EncTok(k)|), m, l, es + [e], ts + [k])
  {
    hide EncTok, RsvBlock, Drafts;
    EncConcat(ts, [k]);
    EncOne(k);
    OccursCat(m, h.offStruct, Enc(ts), EncTok(k));
    var h' := h.(sizeStruct := h.sizeStruct + |EncTok(k)|);
    assert Table(h', m) == Table(h, m);
  }

  /** And taking the space back drops it. */
  lemma Shrunk(h: Header, m: bytes, l: seq<Rsv>, es: seq<Event>, ts: seq<Tok>, e: Event, k: Tok)
    requires Writing(h, m, l, es + [e], ts + [k]) && |es| == |ts|
    ensures |EncTok(k)| <= h.sizeStruct
    ensures Writing(h.(sizeStruct := h.sizeStruct - |EncTok(k)|), m, l, es, ts)
  {
    hide EncTok, RsvBlock, Drafts;
    EncConcat(ts, [k]);
    EncOne(k);
    OccursCat(m, h.offStruct, Enc(ts), EncTok(k));
    var h' := h.(sizeStruct := h.sizeStruct - |EncTok(k)|);
    assert Table(h', m) == Table(h, m);
    assert forall i :: 0 <= i < |ts| ==> (es + [e])[i] == es[i] && (ts + [k])[i] == ts[i];
  }

  // ------------------------------------------------------------------ names

  /** Strings put before a table keep the distance of every string to its end. */
  lemma {:induction false} StrAtAfter(x: bytes, t: bytes, o: nat)
    requires Terminated(t, o)
    ensures Terminated(x + t, |x| + o) && StrAt(x + t, |x| + o) == StrAt(t, o)
  {
    StrAtHolds(t, o);
    var s := StrAt(t, o);
    assert (x + t)[|x| + o..|x| + o + |s|] == t[o..o + |s|];
    HoldsStrAt(x + t, |x| + o, s);
  }

  lemma RebasedIs(k: Tok, n: nat)
    requires k.TProp? && n < INT32_MAX && TWO32 - n <= k.nameoff < TWO32
    ensures Rebased(k, n) == k.(nameoff := k.nameoff + n - TWO32)
  {
  }

  lemma DraftsGrow(x: bytes, t: bytes, e: Event, k: Tok)
    requires Drafts(t, e, k) && |x| + |t| < INT32_MAX
    ensures Drafts(x + t, e, k)
  {
    hide Terminated, StrAt;
    if k.TProp? {
      RebasedIs(k, |t|);
      RebasedIs(k, |x| + |t|);
      StrAtAfter(x, t, k.nameoff + |t| - TWO32);
    }
  }

  /** A name stored below the strings, which are then longer, keeps the run. */
  lemma StringPut(h: Header, m: bytes, l: seq<Rsv>, es: seq<Event>, ts: seq<Tok>, s: bytes)
    requires Writing(h, m, l, es, ts) && NoNul(s) && Top(h) + h.sizeStrings + |s| + 1 <= h.totalsize
    ensures var at := h.totalsize - h.sizeStrings - |s| - 1;
      var h', m' := h.(sizeStrings := h.sizeStrings + |s| + 1), Written(m, at, s + [0]);
      Writing(h, m', l, es, ts) && Writing(h', m', l, es, ts) && Table(h', m') == s + [0] + Table(h, m)
  {
    hide Enc, RsvBlock, Table, Drafts, Occurs, SameOutside, Written;
    var at := h.totalsize - h.sizeStrings - |s| - 1;
    var h', m', t := h.(sizeStrings := h.sizeStrings + |s| + 1), Written(m, at, s + [0]), Table(h, m);
    SameRefl(m, Top(h), h.totalsize - h.sizeStrings - Top(h));
    SameWritten(m, m, Top(h), h.totalsize - h.sizeStrings - Top(h), at, s + [0]);
    GapFree(h, m, l, es, ts, m');
    WrittenHolds(m, at, s + [0]);
    TableAt(h, m', t);
    OccursCat(m', at, s + [0], t);
    TableAt(h', m', s + [0] + t);
    forall i | 0 <= i < |ts|
      ensures Drafts(s + [0] + t, es[i], ts[i])
    {
      DraftsGrow(s + [0], t, es[i], ts[i]);
    }
  }

  /** A place to name a property by: distance -off from the end of the table. */
  ghost predicate NamedAt(t: bytes, off: int, s: bytes) {
    -|t| <= off < 0 && Terminated(t, |t| + off) && StrAt(t, |t| + off) == s
  }

  lemma DraftProperty(t: bytes, off: int, n: bytes, v: bytes, pad: bytes)
    requires |t| < INT32_MAX && NamedAt(t, off, n) && OkTok(TProp(TWO32 + off, v, pad))
    ensures Drafts(t, Event.Prop(n, v), TProp(TWO32 + off, v, pad))
  {
    hide Terminated, StrAt;
    RebasedIs(TProp(TWO32 + off, v, pad), |t|);
  }

  lemma FoundName(t: bytes, r: nat, s: bytes)
    requires NoNul(s) && Occurs(t, r, s + [0])
    ensures NamedAt(t, r - |t|, s)
  {
    OccursHolds(t, r, s);
  }

  lemma FirstName(t: bytes, s: bytes)
    requires NoNul(s)
    ensures NamedAt(s + [0] + t, -(|s| + 1 + |t|), s)
  {
    hide NamedAt;
    Middle([], s + [0], t);
    assert [] + (s + [0]) + t == s + [0] + t;
    FoundName(s + [0] + t, 0, s);
  }

  /** The record of a node begun, in the space grabbed for it. */
  lemma NodeRecord(m: bytes, at: nat, s: bytes) returns (k: Tok)
    requires NoNul(s) && at + 4 + TagAlign(|s| + 1) <= |m| && Occurs(m, at, BE32(FDT_BEGIN_NODE)) && Occurs(m, at + 4, s + [0])
    ensures k.TBegin? && k.name == s && OkTok(k) && |EncTok(k)| == 4 + TagAlign(|s| + 1) && Occurs(m, at, EncTok(k))
  {
    hide BE32;
    var pad := m[at + 4 + |s| + 1..at + 4 + TagAlign(|s| + 1)];
    k := TBegin(s, pad);
    OccursCat(m, at + 4, s + [0], pad);
    OccursCat(m, at, BE32(FDT_BEGIN_NODE), s + [0] + pad);
  }

  /** Two stores into the grabbed space begin a node. */
  lemma Begun(h: Header, m: bytes, l: seq<Rsv>, es: seq<Event>, ts: seq<Tok>, s: bytes) returns (k: Tok)
    requires Writing(h, m, l, es, ts) && NoNul(s) && 4 + TagAlign(|s| + 1) <= Free(h)
    ensures var m' := Written(Written(m, Top(h), BE32(FDT_BEGIN_NODE)), Top(h) + 4, s + [0]);
      Writing(h.(sizeStruct := h.sizeStruct + 4 + TagAlign(|s| + 1)), m', l, es + [BeginNode(s)], ts + [k])
  {
    hide BE32, Enc, EncTok, RsvBlock, DraftsAll, Table, Written, TagAlign, SameOutside, Occurs;
    var at, n, tag := Top(h), Free(h), BE32(FDT_BEGIN_NODE);
    var m1 := Written(m, at, tag);
    var m2 := Written(m1, at + 4, s + [0]);
    SameRefl(m, at, n);
    SameWritten(m, m, at, n, at, tag);
    SameWritten(m, m1, at, n, at + 4, s + [0]);
    WrittenHolds(m, at, tag);
    WrittenKeeps(m1, at + 4, s + [0], at, tag);
    WrittenHolds(m1, at + 4, s + [0]);
    GapFree(h, m, l, es, ts, m2);
    k := NodeRecord(m2, at, s);
    WritingFacts(h, m2, l, es, ts);
    Grown(h, m2, l, es, ts, BeginNode(s), k);
  }

  /** Three stores into the grabbed space make a property, named by a string of the table. */
  lemma Placed(h: Header, m: bytes, l: seq<Rsv>, es: seq<Event>, ts: seq<Tok>, s: bytes, off: int, n: nat) returns (k: Tok)
    requires Writing(h, m, l, es, ts) && NamedAt(Table(h, m), off, s) && n < MAX_VALUE && 12 + TagAlign(n) <= Free(h)
    ensures TWO32 + off >= 0
    ensures var at := Top(h);
      var m' := Written(Written(Written(m, at, BE32(FDT_PROP)), at + 8, BE32(TWO32 + off)), at + 4, BE32(n));
      && k.TProp? && k.value == m'[at + 12..at + 12 + n] && Occurs(m', at, EncTok(k)) && |EncTok(k)| == 12 + TagAlign(n)
      && Writing(h.(sizeStruct := h.sizeStruct + 12 + TagAlign(n)), m', l, es + [Event.Prop(s, k.value)], ts + [k])
  {
    hide BE32, Enc, EncTok, RsvBlock, DraftsAll, Table, Written, TagAlign, SameOutside, NamedAt, Drafts, Occurs, Written;
    WritingFacts(h, m, l, es, ts);
    NamedBounds(Table(h, m), off, s);
    var at := Top(h);
    var m3 := Written(Written(Written(m, at, BE32(FDT_PROP)), at + 8, BE32(TWO32 + off)), at + 4, BE32(n));
    PropertyWords(m, at, at, Free(h), TWO32 + off, n);
    GapFree(h, m, l, es, ts, m3);
    HoleProp(m3, at, TWO32 + off, n, TagAlign(n));
    k := TProp(TWO32 + off, m3[at + 12..at + 12 + n], m3[at + 12 + n..at + 12 + TagAlign(n)]);
    RecordTok(k.nameoff, k.value, k.ppad);
    DraftProperty(Table(h, m3), off, s, k.value, k.ppad);
    Grown(h, m3, l, es, ts, Event.Prop(s, k.value), k);
  }

  /** A value stored over that of the last property replaces it. */
  lemma Refilled(h: Header, m: bytes, l: seq<Rsv>, es: seq<Event>, ts: seq<Tok>, s: bytes, k: Tok, v: bytes) returns (k': Tok)
    requires k.TProp? && |k.value| == |v| < MAX_VALUE && |EncTok(k)| == 12 + TagAlign(|v|)
    requires Writing(h, m, l, es + [Event.Prop(s, k.value)], ts + [k]) && |es| == |ts|
    ensures 12 + TagAlign(|v|) <= Top(h) <= |m|
    ensures var at := Top(h) - TagAlign(|v|);
      Writing(h, Written(m, at, v), l, es + [Event.Prop(s, v)], ts + [k'])
  {
    hide EncTok, Enc, RsvBlock, DraftsAll, Table, Written, TagAlign, SameOutside, Drafts, Occurs;
    Shrunk(h, m, l, es, ts, Event.Prop(s, k.value), k);
    WritingFacts(h, m, l, es + [Event.Prop(s, k.value)], ts + [k]);
    LastDraft(h, m, l, es, ts, Event.Prop(s, k.value), k);
    var g := h.(sizeStruct := h.sizeStruct - |EncTok(k)|);
    var at := Top(g);
    var m' := Written(m, at + 12, v);
    SameRefl(m, at, Free(g));
    SameWritten(m, m, at, Free(g), at + 12, v);
    GapFree(g, m, l, es, ts, m');
    k' := NewValue(m, at, k, v);
    DraftValue(Table(h, m), s, k, k');
    TableSame(h, g, m');
    TableSame(h, g, m);
    Grown(g, m', l, es, ts, Event.Prop(s, v), k');
  }

  /** The record of a property once another value of the same length is stored in it. */
  lemma NewValue(m: bytes, at: nat, k: Tok, v: bytes) returns (k': Tok)
    requires OkTok(k) && k.TProp? && |k.value| == |v| < MAX_VALUE
    requires |EncTok(k)| == 12 + TagAlign(|v|) && Occurs(m, at, EncTok(k)) && at + 12 + TagAlign(|v|) <= |m|
    ensures OkTok(k') && k'.TProp? && k'.nameoff == k.nameoff && k'.value == v
    ensures var m' := Written(m, at + 12, v); Occurs(m', at, EncTok(k')) && |EncTok(k')| == |EncTok(k)|
  {
    hide BE32, Written, TagAlign, Occurs, PropRecord, EncTok;
    var o, m' := k.nameoff, Written(m, at + 12, v);
    RecordTok(o, k.value, k.ppad);
    RecordWords(m, at, o, k.value, k.ppad);
    WrittenKeeps(m, at + 12, v, at, BE32(FDT_PROP));
    WrittenKeeps(m, at + 12, v, at + 4, BE32(|v|));
    WrittenKeeps(m, at + 12, v, at + 8, BE32(o));
    WrittenHolds(m, at + 12, v);
    HoleProp(m', at, o, |v|, TagAlign(|v|));
    ValueAt(m', at + 12, v);
    k' := TProp(o, v, m'[at + 12 + |v|..at + 12 + TagAlign(|v|)]);
    RecordTok(o, v, k'.ppad);
  }

  lemma TableSame(h: Header, g: Header, m: bytes)
    requires g == h.(sizeStruct := g.sizeStruct)
    ensures Table(g, m) == Table(h, m)
  {
  }

  lemma ValueAt(m: bytes, at: nat, v: bytes)
    requires Occurs(m, at, v)
    ensures at + |v| <= |m| && m[at..at + |v|] == v
  {
  }

  lemma LastDraft(h: Header, m: bytes, l: seq<Rsv>, es: seq<Event>, ts: seq<Tok>, e: Event, k: Tok)
    requires Writing(h, m, l, es + [e], ts + [k]) && |es| == |ts|
    ensures Drafts(Table(h, m), e, k) && OkTok(k)
    ensures |EncTok(k)| <= h.sizeStruct && Occurs(m, Top(h) - |EncTok(k)|, EncTok(k))
  {
    hide EncTok, RsvBlock, Records, OkRsv, Occurs;
    EncConcat(ts, [k]);
    EncOne(k);
    OccursCat(m, h.offStruct, Enc(ts), EncTok(k));
    assert (es + [e])[|ts|] == e && (ts + [k])[|ts|] == k;
  }

  lemma DraftValue(t: bytes, s: bytes, k: Tok, k': Tok)
    requires k.TProp? && Drafts(t, Event.Prop(s, k.value), k)
    requires k'.TProp? && k'.nameoff == k.nameoff && OkTok(k')
    ensures Drafts(t, Event.Prop(s, k'.value), k')
  {
  }

  lemma RecordTok(o: nat, v: bytes, pad: bytes)
    ensures PropRecord(o, v, pad) == EncTok(TProp(o, v, pad))
  {
    FlatSOne(Item.Prop(o, v, pad));
    EncOne(TProp(o, v, pad));
  }

  // ------------------------------------------------------------------ finishing

  /** The strings t follow the structure block, which holds tokens ts. */
  ghost predicate Sealed(h: Header, m: bytes, l: seq<Rsv>, t: bytes, ts: seq<Tok>) {
    && h.version == 17 && h.totalsize <= |m| && h.totalsize < INT32_MAX
    && h.offRsv == SW_HEADER && h.offStruct == SW_HEADER + |RsvBlock(l)|
    && h.offStrings == Top(h) && DataSize(h) <= h.totalsize
    && OkRsv(l) && Occurs(m, SW_HEADER, RsvBlock(l))
    && h.sizeStruct == |Enc(ts)| && Occurs(m, h.offStruct, Enc(ts))
    && h.sizeStrings == |t| && Occurs(m, h.offStrings, t)
  }

  /** The terminator stored and the strings moved down, whatever the overlap. */
  lemma Closed(h: Header, m: bytes, l: seq<Rsv>, es: seq<Event>, ts: seq<Tok>)
    requires Writing(h, m, l, es, ts) && Free(h) >= 4
    ensures var m1 := Written(m, Top(h), BE32(FDT_END));
      var m2 := Moved(m1, Top(h) + 4, h.totalsize - h.sizeStrings, h.sizeStrings);
      Sealed(h.(sizeStruct := h.sizeStruct + 4, offStrings := Top(h) + 4), m2, l, Table(h, m), ts + [TFin])
  {
    hide BE32, Enc, RsvBlock, DraftsAll, Table, Written, Moved, Occurs, SameOutside;
    var at, w, src, n := Top(h), BE32(FDT_END), h.totalsize - h.sizeStrings, h.sizeStrings;
    var m1 := Written(m, at, w);
    SameRefl(m, at, Free(h));
    SameWritten(m, m, at, Free(h), at, w);
    GapFree(h, m, l, es, ts, m1);
    WrittenHolds(m, at, w);
    EncConcat(ts, [TFin]);
    FinBytes();
    OccursCat(m1, h.offStruct, Enc(ts), w);
    TableAt(h, m1, Table(h, m));
    MovedBefore(m1, at + 4, src, n, SW_HEADER, RsvBlock(l));
    MovedBefore(m1, at + 4, src, n, h.offStruct, Enc(ts + [TFin]));
    MovedTo(m1, at + 4, src, n, src, Table(h, m));
  }

  lemma FinBytes()
    ensures Enc([TFin]) == BE32(FDT_END)
  {
    EncOne(TFin);
    assert BE32(FDT_END) + [] == BE32(FDT_END);
  }

  /** Storing another name offset changes one token and moves none. */
  lemma Renamed(h: Header, m: bytes, l: seq<Rsv>, t: bytes, ts: seq<Tok>, i: nat, o: nat)
    requires Sealed(h, m, l, t, ts) && i < |ts| && ts[i].TProp?
    ensures h.offStruct + Off(ts, i) + 12 <= |m|
    ensures var ts' := ts[i := ts[i].(nameoff := o)];
      && Sealed(h, Written(m, h.offStruct + Off(ts, i) + 8, BE32(o)), l, t, ts')
      && Off(ts', i) == Off(ts, i) && Off(ts', i + 1) == Off(ts, i + 1)
  {
    hide BE32, Enc, RsvBlock, Written, Occurs, EncTok;
    var k, k' := ts[i], ts[i].(nameoff := o);
    var ts' := ts[i := k'];
    EncSplit(ts, i);
    EncSplit(ts', i);
    assert ts'[..i] == ts[..i] && ts'[i + 1..] == ts[i + 1..];
    var a, c, at := Enc(ts[..i]), Enc(ts[i + 1..]), h.offStruct + Off(ts, i);
    OccursCat(m, h.offStruct, a + EncTok(k), c);
    OccursCat(m, h.offStruct, a, EncTok(k));
    RenamedRecord(m, at, k, o);
    var m' := Written(m, at + 8, BE32(o));
    WrittenKeeps(m, at + 8, BE32(o), SW_HEADER, RsvBlock(l));
    WrittenKeeps(m, at + 8, BE32(o), h.offStruct, a);
    WrittenKeeps(m, at + 8, BE32(o), at + |EncTok(k)|, c);
    WrittenKeeps(m, at + 8, BE32(o), h.offStrings, t);
    OccursCat(m', h.offStruct, a, EncTok(k'));
    OccursCat(m', h.offStruct, a + EncTok(k'), c);
  }

  lemma RenamedRecord(m: bytes, at: nat, k: Tok, o: nat)
    requires k.TProp? && Occurs(m, at, EncTok(k))
    ensures |EncTok(k)| >= 12 && at + |EncTok(k)| <= |m|
    ensures var k' := k.(nameoff := o); |EncTok(k')| == |EncTok(k)| && Occurs(Written(m, at + 8, BE32(o)), at, EncTok(k'))
  {
    hide BE32, Written, PropRecord;
    var v, p, w := k.value, k.ppad, BE32(o);
    RecordTok(k.nameoff, v, p);
    RecordWords(m, at, k.nameoff, v, p);
    RecordTok(o, v, p);
    PropRecordIs(o, v, p);
    PropRecordIs(k.nameoff, v, p);
    var m' := Written(m, at + 8, w);
    WrittenKeeps(m, at + 8, w, at, BE32(FDT_PROP));
    WrittenKeeps(m, at + 8, w, at + 4, BE32(|v|));
    WrittenHolds(m, at + 8, w);
    WrittenKeeps(m, at + 8, w, at + 12, v);
    WrittenKeeps(m, at + 8, w, at + 12 + |v|, p);
    OccursCat(m', at + 4, BE32(|v|), w);
    OccursCat(m', at + 4, BE32(|v|) + w, v);
    OccursCat(m', at + 4, BE32(|v|) + w + v, p);
    OccursCat(m', at, BE32(FDT_PROP), BE32(|v|) + w + v + p);
  }

  lemma RebasedOk(t: bytes, e: Event, k: Tok)
    requires Drafts(t, e, k)
    ensures Records(t, e, Rebased(k, |t|)) && OkTok(Rebased(k, |t|)) && !k.TFin?
  {
  }

  /** When the calls describe d, the finished blob holds d. */
  lemma Finished(h: Header, m: bytes, l: seq<Rsv>, t: bytes, es: seq<Event>, ts: seq<Tok>, h': Header, d: DT) returns (root: Item)
    requires Sealed(h, m, l, t, RebasedAll(ts, |t|) + [TFin]) && DraftsAll(t, es, ts) && es == Events(d)
    requires h' == h.(totalsize := DataSize(h), lastComp := FDT_FIRST_SUPPORTED_VERSION, magic := FDT_MAGIC)
    ensures Wf(h', m, root, l) && StringsOf(h', m) == t && Mean(t, root) == d
  {
    hide Enc, RsvBlock, Occurs, Drafts, Records, Events, Rebased, Flat, OkItem;
    var us := RebasedAll(ts, |t|);
    forall i | 0 <= i < |us|
      ensures Records(t, es[i], us[i])
    {
      RebasedOk(t, es[i], ts[i]);
    }
    root := BuildNode(t, d, us);
    StringsAt(h', m, t);
  }

  // ------------------------------------------------------------------ the writer

  function SwProbe(f: Fdt): int
    reads f
  {
    if !f.ChkBasic() then 0
    else if f.hdr.magic == FDT_MAGIC then -FDT_ERR_BADSTATE
    else if f.hdr.magic != FDT_SW_MAGIC then -FDT_ERR_BADMAGIC
    else 0
  }

  function SwProbeMemrsv(f: Fdt): int
    reads f
  {
    if !f.ChkExtra() then 0
    else if SwProbe(f) != 0 then SwProbe(f)
    else if f.hdr.offStrings != 0 then -FDT_ERR_BADSTATE
    else 0
  }

  function SwProbeStruct(f: Fdt): int
    reads f
  {
    if !f.ChkExtra() then 0
    else if SwProbe(f) != 0 then SwProbe(f)
    else if f.hdr.offStrings != f.hdr.totalsize then -FDT_ERR_BADSTATE
    else 0
  }

  /** The room left. */
  function Free(h: Header): int {
    h.totalsize - h.sizeStrings - Top(h)
  }

  /** The test of fdt_add_string_, in C's unsigned arithmetic. */
  predicate NoRoom(h: Header, len: nat) {
    (h.totalsize - h.sizeStrings - len) % TWO32 < Top(h)
  }

  /** Strings with len bytes more do not fit the buffer, even without a structure. */
  predicate Outgrown(h: Header, len: nat) {
    h.totalsize < h.sizeStrings + len
  }

  /** It is right exactly for names that would at least fit an otherwise empty buffer. */
  lemma NoRoomExact(h: Header, len: nat)
    requires h.totalsize < INT32_MAX && h.sizeStrings + len < INT32_MAX && 0 < Top(h) < INT32_MAX
    ensures (NoRoom(h, len) <==> Free(h) < len) <==> !Outgrown(h, len)
  {
    var d := h.totalsize - h.sizeStrings - len;
    if d < 0 {
      assert d % TWO32 == d + TWO32;
    }
  }

  /** A name of 101 bytes finds no room below 100 bytes of strings in a buffer of 200, and passes. */
  lemma RoomMissed(h: Header)
    requires h.totalsize == 200 && h.sizeStrings == 100 && 0 < Top(h) <= 100
    ensures Free(h) < 101 && !NoRoom(h, 101)
  {
  }

  predicate Dedup(h: Header) {
    h.lastComp % 2 != FDT_CREATE_FLAG_NO_NAME_DEDUP
  }

  /** The space fdt_property takes for its name. */
  ghost function NameCost(h: Header, t: bytes, s: bytes): nat {
    if Dedup(h) then StringCost(t, s) else |s| + 1
  }

  class Writer {
    const fdt: Fdt
    ghost var rsv: seq<Rsv>
    ghost var log: seq<Event>
    ghost var toks: seq<Tok>

    ghost predicate InReserve()
      reads this, fdt, fdt.mem
    {
      Reserving(fdt.hdr, fdt.mem[..], rsv) && log == []
    }

    ghost predicate InStruct()
      reads this, fdt, fdt.mem
    {
      Writing(fdt.hdr, fdt.mem[..], rsv, log, toks)
    }

    ghost function Names(): bytes
      reads fdt, fdt.mem
    {
      Table(fdt.hdr, fdt.mem[..])
    }

    constructor (buf: Fdt)
      ensures fdt == buf
    {
      fdt := buf;
    }

    /** fdt_create_with_flags */
    method CreateWithFlags(bufsize: nat, flags: nat) returns (err: int)
      requires bufsize <= fdt.mem.Length && bufsize < INT32_MAX && flags < TWO32
      modifies this, fdt`hdr, fdt.mem
      ensures err == if bufsize < SW_HEADER then -FDT_ERR_NOSPACE else if flags > FDT_CREATE_FLAG_NO_NAME_DEDUP then -FDT_ERR_BADFLAGS else 0
      ensures err == 0 ==> InReserve() && rsv == [] && fdt.hdr.totalsize == bufsize && fdt.hdr.lastComp == flags
      ensures err == 0 ==> fdt.mem[..] == Written(old(fdt.mem[..]), 0, Zeros(bufsize))
      ensures err != 0 ==> fdt.mem[..] == old(fdt.mem[..]) && fdt.hdr == old(fdt.hdr)
    {
      hide Written, Zeros;
      if bufsize < SW_HEADER { return -FDT_ERR_NOSPACE; }
      if flags / 2 != 0 { return -FDT_ERR_BADFLAGS; }
      MemZero(fdt.mem, 0, bufsize);
      fdt.hdr := Header(FDT_SW_MAGIC, bufsize, SW_HEADER, 0, SW_HEADER, FDT_LAST_SUPPORTED_VERSION, flags, 0, 0, 0);
      rsv, log, toks := [], [], [];
      return 0;
    }

    /** Sixteen bytes of a reservation entry. */
    method PutReserve(address: nat, size: nat) returns (err: int)
      requires Reserving(fdt.hdr, fdt.mem[..], rsv) && address < TWO64 && size < TWO64
      modifies fdt`hdr, fdt.mem
      ensures err == if old(fdt.hdr.offStruct) + 16 > fdt.hdr.totalsize then -FDT_ERR_NOSPACE else 0
      ensures err != 0 ==> fdt.mem[..] == old(fdt.mem[..]) && fdt.hdr == old(fdt.hdr)
      ensures err == 0 ==> fdt.hdr == old(fdt.hdr).(offStruct := old(fdt.hdr.offStruct) + 16)
      ensures err == 0 ==> Occurs(fdt.mem[..], SW_HEADER, EncRsv(rsv + [Rsv(address, size)]))
    {
      hide BE64, EncRsv, Written;
      err := SwProbeMemrsv(fdt);
      if err != 0 { return; }
      ghost var m := fdt.mem[..];
      var offset := fdt.hdr.offStruct;
      if offset + 16 > fdt.hdr.totalsize { return -FDT_ERR_NOSPACE; }
      Store(fdt.mem, offset, BE64(address) + BE64(size));
      fdt.hdr := fdt.hdr.(offStruct := offset + 16);
      WrittenKeeps(m, offset, BE64(address) + BE64(size), SW_HEADER, EncRsv(rsv));
      WrittenHolds(m, offset, BE64(address) + BE64(size));
      OccursCat(fdt.mem[..], SW_HEADER, EncRsv(rsv), BE64(address) + BE64(size));
      EncRsvAppend(rsv, Rsv(address, size));
      return 0;
    }

    /** fdt_add_reservemap_entry; an entry of size 0 would end the list. */
    method AddReservemapEntry(address: nat, size: nat) returns (err: int)
      requires InReserve() && address < TWO64 && 0 < size < TWO64
      modifies this`rsv, fdt`hdr, fdt.mem
      ensures InReserve()
      ensures err == if old(fdt.hdr.offStruct) + 16 > fdt.hdr.totalsize then -FDT_ERR_NOSPACE else 0
      ensures rsv == old(rsv) + (if err == 0 then [Rsv(address, size)] else [])
      ensures fdt.hdr.totalsize == old(fdt.hdr.totalsize)
    {
      hide EncRsv;
      err := PutReserve(address, size);
      if err == 0 {
        rsv := rsv + [Rsv(address, size)];
      }
    }

    /** fdt_finish_reservemap */
    method FinishReservemap() returns (err: int)
      requires InReserve()
      modifies this`toks, fdt`hdr, fdt.mem
      ensures err == if old(fdt.hdr.offStruct) + 16 > fdt.hdr.totalsize then -FDT_ERR_NOSPACE else 0
      ensures if err != 0 then InReserve() && fdt.hdr == old(fdt.hdr) else InStruct()
    {
      hide EncRsv;
      err := PutReserve(0, 0);
      if err != 0 { return; }
      fdt.hdr := fdt.hdr.(offStrings := fdt.hdr.totalsize);
      toks := [];
      return 0;
    }

    /** fdt_grab_space_ */
    method GrabSpace(len: nat) returns (p: Ptr)
      requires Top(fdt.hdr) + fdt.hdr.sizeStrings <= fdt.hdr.totalsize < INT32_MAX
      modifies fdt`hdr
      ensures if len > old(Free(fdt.hdr)) then p == Null && fdt.hdr == old(fdt.hdr)
              else p == Ptr.Ptr(old(Top(fdt.hdr))) && fdt.hdr == old(fdt.hdr).(sizeStruct := old(fdt.hdr.sizeStruct) + len)
    {
      var offset := fdt.hdr.sizeStruct;
      var spaceleft := fdt.hdr.totalsize - fdt.hdr.offStruct - fdt.hdr.sizeStrings;
      if offset + len > spaceleft { return Null; }
      fdt.hdr := fdt.hdr.(sizeStruct := offset + len);
      p := Ptr.Ptr(fdt.hdr.offStruct + offset);
    }

    /** fdt_begin_node */
    method Begin(name: bytes) returns (err: int)
      requires InStruct() && NoNul(name) && |name| < MAX_VALUE
      modifies this`log, this`toks, fdt`hdr, fdt.mem
      ensures InStruct()
      ensures err == if old(Free(fdt.hdr)) < 4 + TagAlign(|name| + 1) then -FDT_ERR_NOSPACE else 0
      ensures log == old(log) + (if err == 0 then [BeginNode(name)] else [])
      ensures err != 0 ==> fdt.hdr == old(fdt.hdr) && fdt.mem[..] == old(fdt.mem[..])
    {
      hide BE32, Enc, RsvBlock, DraftsAll, Written, TagAlign, Writing, Table, Occurs;
      WritingFacts(fdt.hdr, fdt.mem[..], rsv, log, toks);
      err := SwProbeStruct(fdt);
      if err != 0 { return; }
      ghost var h, m := fdt.hdr, fdt.mem[..];
      var namelen := |name| + 1;
      var nh := GrabSpace(4 + TagAlign(namelen));
      if nh.Null? { return -FDT_ERR_NOSPACE; }
      StoreWord(fdt.mem, nh.at, FDT_BEGIN_NODE);
      Store(fdt.mem, nh.at + 4, name + [0]);
      ghost var k := Begun(h, m, rsv, log, toks, name);
      log, toks := log + [BeginNode(name)], toks + [k];
      return 0;
    }

    /** fdt_end_node */
    method End() returns (err: int)
      requires InStruct()
      modifies this`log, this`toks, fdt`hdr, fdt.mem
      ensures InStruct()
      ensures err == if old(Free(fdt.hdr)) < 4 then -FDT_ERR_NOSPACE else 0
      ensures log == old(log) + (if err == 0 then [EndNode] else [])
      ensures err != 0 ==> fdt.hdr == old(fdt.hdr) && fdt.mem[..] == old(fdt.mem[..])
    {
      hide BE32, Enc, RsvBlock, DraftsAll, Table, Written, SameOutside, Writing, Table, Occurs;
      WritingFacts(fdt.hdr, fdt.mem[..], rsv, log, toks);
      err := SwProbeStruct(fdt);
      if err != 0 { return; }
      ghost var h, m := fdt.hdr, fdt.mem[..];
      var en := GrabSpace(4);
      if en.Null? { return -FDT_ERR_NOSPACE; }
      StoreWord(fdt.mem, en.at, FDT_END_NODE);
      SameRefl(m, Top(h), Free(h));
      SameWritten(m, m, Top(h), Free(h), en.at, BE32(FDT_END_NODE));
      WrittenHolds(m, en.at, BE32(FDT_END_NODE));
      GapFree(h, m, rsv, log, toks, fdt.mem[..]);
      assert EncTok(TEnd) == BE32(FDT_END_NODE);
      WritingFacts(h, fdt.mem[..], rsv, log, toks);
      Grown(h, fdt.mem[..], rsv, log, toks, EndNode, TEnd);
      log, toks := log + [EndNode], toks + [TEnd];
      return 0;
    }

    /** fdt_add_string_: 0 means no room; a name that does not even fit the buffer without the structure goes below the buffer. */
    method AddString(s: bytes) returns (offset: int)
      requires InStruct() && NoNul(s) && fdt.hdr.sizeStrings + |s| + 1 < INT32_MAX
      modifies fdt`hdr, fdt.mem
      ensures InStruct()
      ensures old(Free(fdt.hdr)) < |s| + 1 ==> offset == (if old(Outgrown(fdt.hdr, |s| + 1)) then STRAY else 0)
      ensures old(Free(fdt.hdr)) < |s| + 1 ==> fdt.hdr == old(fdt.hdr) && fdt.mem[..] == old(fdt.mem[..])
      ensures old(Free(fdt.hdr)) >= |s| + 1 ==> NamedAt(Names(), offset, s)
      ensures old(Free(fdt.hdr)) >= |s| + 1 ==> fdt.hdr == old(fdt.hdr).(sizeStrings := old(fdt.hdr.sizeStrings) + |s| + 1)
      ensures old(Free(fdt.hdr)) >= |s| + 1 ==> Writing(old(fdt.hdr), fdt.mem[..], rsv, log, toks)
    {
      hide Enc, RsvBlock, DraftsAll, Table, Written, NamedAt, Writing, Table, Occurs;
      WritingFacts(fdt.hdr, fdt.mem[..], rsv, log, toks);
      ghost var h, m := fdt.hdr, fdt.mem[..];
      var strtabsize: int := fdt.hdr.sizeStrings;
      var len: int := |s| + 1;
      offset := -strtabsize - len;
      NoRoomExact(h, len);
      if NoRoom(fdt.hdr, len) { return 0; }
      if Outgrown(fdt.hdr, len) { return STRAY; }
      Store(fdt.mem, fdt.hdr.totalsize + offset, s + [0]);
      fdt.hdr := fdt.hdr.(sizeStrings := strtabsize + len);
      StringPut(h, m, rsv, log, toks, s);
      WritingFacts(h, m, rsv, log, toks);
      FirstName(Table(h, m), s);
    }

    /** fdt_find_add_string_ */
    method FindAddName(s: bytes) returns (offset: int, added: bool)
      requires InStruct() && NoNul(s) && fdt.hdr.sizeStrings + StringCost(Names(), s) < INT32_MAX
      modifies fdt`hdr, fdt.mem
      ensures InStruct()
      ensures var cost := old(StringCost(Names(), s));
        if old(Free(fdt.hdr)) < cost then offset == (if old(Outgrown(fdt.hdr, cost)) then STRAY else 0) && fdt.hdr == old(fdt.hdr)
        else NamedAt(Names(), offset, s) && fdt.hdr == old(fdt.hdr).(sizeStrings := old(fdt.hdr.sizeStrings) + cost) &&
             added == (cost > 0)
      ensures Writing(old(fdt.hdr), fdt.mem[..], rsv, log, toks)
    {
      hide Enc, RsvBlock, DraftsAll, NamedAt;
      var strtab := fdt.hdr.totalsize - fdt.hdr.sizeStrings;
      WritingFacts(fdt.hdr, fdt.mem[..], rsv, log, toks);
      var p := FindString(fdt.mem, strtab, fdt.hdr.sizeStrings, s);
      if p >= 0 {
        FoundName(Names(), p, s);
        return p - fdt.hdr.sizeStrings, false;
      }
      offset := AddString(s);
      added := true;
    }

    /** fdt_del_last_string_ */
    method DelLastString(s: bytes)
      requires fdt.hdr.sizeStrings >= |s| + 1
      modifies fdt`hdr
      ensures fdt.hdr == old(fdt.hdr).(sizeStrings := old(fdt.hdr.sizeStrings) - |s| - 1)
    {
      fdt.hdr := fdt.hdr.(sizeStrings := fdt.hdr.sizeStrings - (|s| + 1));
    }

    /** The name offset of a new property: an old name unless names are not shared. */
    method PropertyName(name: bytes) returns (nameoff: int, added: bool)
      requires InStruct() && NoNul(name) && fdt.hdr.sizeStrings + NameCost(fdt.hdr, Names(), name) < INT32_MAX
      modifies fdt`hdr, fdt.mem
      ensures InStruct()
      ensures var cost := old(NameCost(fdt.hdr, Names(), name));
        if old(Free(fdt.hdr)) < cost then nameoff == (if old(Outgrown(fdt.hdr, cost)) then STRAY else 0) && fdt.hdr == old(fdt.hdr)
        else NamedAt(Names(), nameoff, name) && fdt.hdr == old(fdt.hdr).(sizeStrings := old(fdt.hdr.sizeStrings) + cost) &&
             added == (cost > 0) && (added ==> cost == |name| + 1)
      ensures Writing(old(fdt.hdr), fdt.mem[..], rsv, log, toks)
    {
      hide Enc, RsvBlock, DraftsAll, NamedAt, Writing;
      if !Dedup(fdt.hdr) {
        added := true;
        nameoff := AddString(name);
      } else {
        nameoff, added := FindAddName(name);
      }
    }

    /**
      fdt_property_placeholder: the value is whatever the memory holds.  An error leaves the run
      as it was, even after a name was added.
     */
    method PropertyPlaceholder(name: bytes, len: nat) returns (err: int, valp: nat)
      requires InStruct() && NoNul(name) && len < MAX_VALUE
      requires fdt.hdr.sizeStrings + NameCost(fdt.hdr, Names(), name) < INT32_MAX
      modifies this`log, this`toks, fdt`hdr, fdt.mem
      ensures InStruct()
      ensures err == if old(Outgrown(fdt.hdr, NameCost(fdt.hdr, Names(), name))) then -STRAY
                     else if old(Free(fdt.hdr) < 12 + TagAlign(len) + NameCost(fdt.hdr, Names(), name)) then -FDT_ERR_NOSPACE else 0
      ensures err != 0 ==> fdt.hdr == old(fdt.hdr) && log == old(log) && toks == old(toks)
      ensures err == 0 ==> valp == old(Top(fdt.hdr)) + 12 && valp + TagAlign(len) == Top(fdt.hdr) <= fdt.mem.Length
      ensures err == 0 ==> log == old(log) + [Event.Prop(name, fdt.mem[valp..valp + len])]
      ensures err == 0 ==> |toks| == |old(toks)| + 1 && toks[..|toks| - 1] == old(toks)
      ensures err == 0 ==> toks[|old(toks)|].TProp? && toks[|old(toks)|].value == fdt.mem[valp..valp + len]
      ensures err == 0 ==> |EncTok(toks[|old(toks)|])| == 12 + TagAlign(len)
    {
      hide BE32, Enc, EncTok, RsvBlock, DraftsAll, Written, TagAlign, NamedAt, NameCost, Dedup, Writing, Table, Occurs;
      WritingFacts(fdt.hdr, fdt.mem[..], rsv, log, toks);
      valp := 0;
      err := SwProbeStruct(fdt);
      if err != 0 { return; }
      ghost var g := fdt.hdr;
      var nameoff, added := PropertyName(name);
      NamedBounds(Names(), nameoff, name);
      if nameoff == 0 { return -FDT_ERR_NOSPACE, 0; }
      if nameoff == STRAY { return -STRAY, 0; }
      WritingFacts(fdt.hdr, fdt.mem[..], rsv, log, toks);
      ghost var h := fdt.hdr;
      var prop := GrabSpace(12 + TagAlign(len));
      if prop.Null? {
        if added {
          DelLastString(name);
        }
        return -FDT_ERR_NOSPACE, 0;
      }
      PutRecord(prop.at, name, nameoff, len, h);
      return 0, prop.at + 12;
    }

    /** The record of a property at the end of the structure, whose size was h.sizeStruct before. */
    method PutRecord(at: nat, name: bytes, nameoff: int, len: nat, ghost h: Header)
      requires Writing(h, fdt.mem[..], rsv, log, toks) && NamedAt(Table(h, fdt.mem[..]), nameoff, name) && len < MAX_VALUE
      requires 12 + TagAlign(len) <= Free(h) && at == Top(h) && fdt.hdr == h.(sizeStruct := h.sizeStruct + 12 + TagAlign(len))
      modifies this`log, this`toks, fdt.mem
      ensures InStruct() && at + 12 + TagAlign(len) <= fdt.mem.Length
      ensures log == old(log) + [Event.Prop(name, fdt.mem[at + 12..at + 12 + len])]
      ensures |toks| == |old(toks)| + 1 && toks[..|toks| - 1] == old(toks) && |EncTok(toks[|old(toks)|])| == 12 + TagAlign(len)
      ensures toks[|old(toks)|].TProp? && toks[|old(toks)|].value == fdt.mem[at + 12..at + 12 + len]
    {
      hide BE32, Enc, EncTok, RsvBlock, DraftsAll, Written, TagAlign, NamedAt, Writing, Table, Occurs;
      ghost var m := fdt.mem[..];
      WritingFacts(h, m, rsv, log, toks);
      NamedBounds(Table(h, m), nameoff, name);
      StoreWord(fdt.mem, at, FDT_PROP);
      StoreWord(fdt.mem, at + 8, TWO32 + nameoff);
      StoreWord(fdt.mem, at + 4, len);
      ghost var k := Placed(h, m, rsv, log, toks, name, nameoff, len);
      log, toks := log + [Event.Prop(name, k.value)], toks + [k];
    }

    /** fdt_property */
    method Property(name: bytes, val: bytes) returns (err: int)
      requires InStruct() && NoNul(name) && |val| < MAX_VALUE
      requires fdt.hdr.sizeStrings + NameCost(fdt.hdr, Names(), name) < INT32_MAX
      modifies this`log, this`toks, fdt`hdr, fdt.mem
      ensures InStruct()
      ensures err == if old(Outgrown(fdt.hdr, NameCost(fdt.hdr, Names(), name))) then -STRAY
                     else if old(Free(fdt.hdr) < 12 + TagAlign(|val|) + NameCost(fdt.hdr, Names(), name)) then -FDT_ERR_NOSPACE else 0
      ensures log == old(log) + (if err == 0 then [Event.Prop(name, val)] else [])
      ensures err != 0 ==> fdt.hdr == old(fdt.hdr)
    {
      hide BE32, Enc, EncTok, RsvBlock, DraftsAll, Written, TagAlign, NameCost, Writing, Table, Occurs;
      WritingFacts(fdt.hdr, fdt.mem[..], rsv, log, toks);
      ghost var es, ts := log, toks;
      var ptr;
      err, ptr := PropertyPlaceholder(name, |val|);
      if err != 0 { return; }
      ghost var k := toks[|ts|];
      assert toks == ts + [k];
      k := Refilled(fdt.hdr, fdt.mem[..], rsv, es, ts, name, k, val);
      Store(fdt.mem, ptr, val);
      log, toks := es + [Event.Prop(name, val)], ts + [k];
    }

    /**
      fdt_finish.  When the calls so far describe a tree d, properly nested, the result is a
      well-formed blob that means exactly d.
     */
    method Finish(ghost d: DT) returns (err: int)
      requires InStruct()
      modifies fdt`hdr, fdt`root, fdt`rsv, fdt.mem
      ensures err == if old(Free(fdt.hdr)) < 4 then -FDT_ERR_NOSPACE else 0
      ensures err != 0 ==> InStruct() && fdt.hdr == old(fdt.hdr) && fdt.mem[..] == old(fdt.mem[..])
      ensures err == 0 ==> fdt.hdr.totalsize == old(Top(fdt.hdr) + 4 + fdt.hdr.sizeStrings) && fdt.hdr.magic == FDT_MAGIC
      ensures err == 0 && log == Events(d) ==> fdt.Valid() && fdt.rsv == rsv && fdt.Meaning() == d
    {
      hide BE32, Enc, RsvBlock, DraftsAll, Written, Moved, Writing, Table, Occurs, Events, Sealed;
      WritingFacts(fdt.hdr, fdt.mem[..], rsv, log, toks);
      err := SwProbeStruct(fdt);
      if err != 0 { return; }
      ghost var h, m := fdt.hdr, fdt.mem[..];
      var end := GrabSpace(4);
      if end.Null? { return -FDT_ERR_NOSPACE; }
      StoreWord(fdt.mem, end.at, FDT_END);
      var oldstroffset := fdt.hdr.totalsize - fdt.hdr.sizeStrings;
      var newstroffset := fdt.hdr.offStruct + fdt.hdr.sizeStruct;
      MemMove(fdt.mem, newstroffset, oldstroffset, fdt.hdr.sizeStrings);
      fdt.hdr := fdt.hdr.(offStrings := newstroffset);
      Closed(h, m, rsv, log, toks);
      DraftsOf(h, m, rsv, log, toks);
      ghost var t := Table(h, m);
      Rebase(t, toks + [TFin]);
      fdt.hdr := fdt.hdr.(totalsize := newstroffset + fdt.hdr.sizeStrings);
      fdt.hdr := fdt.hdr.(lastComp := FDT_FIRST_SUPPORTED_VERSION);
      fdt.hdr := fdt.hdr.(magic := FDT_MAGIC);
      if log == Events(d) {
        assert RebasedAll(toks + [TFin], |t|) == RebasedAll(toks, |t|) + [TFin];
        fdt.root := Finished(fdt.hdr.(totalsize := h.totalsize, lastComp := h.lastComp, magic := h.magic), fdt.mem[..],
                             rsv, t, log, toks, fdt.hdr, d);
        fdt.rsv := rsv;
      }
      return 0;
    }

    /** The loop of fdt_finish: every name offset is made to count from the start of the strings. */
    method Rebase(ghost t: bytes, ghost ts: seq<Tok>)
      requires Sealed(fdt.hdr, fdt.mem[..], rsv, t, ts) && OkToks(ts)
      requires ts != [] && ts[|ts| - 1] == TFin && forall j :: 0 <= j < |ts| - 1 ==> !ts[j].TFin?
      modifies fdt.mem
      ensures Sealed(fdt.hdr, fdt.mem[..], rsv, t, RebasedAll(ts, |t|))
    {
      hide BE32, Enc, Written, Occurs, Sealed, Load, Off, Scannable, OkTok;
      ghost var cur, i := ts, 0;
      SealedScan(fdt, rsv, t, cur);
      OffZero(cur);
      var offset := 0;
      var tag, nextoffset := NextTag(fdt, offset, cur, 0);
      while tag != FDT_END
        invariant i < |cur| == |ts| && tag == TagOf(cur[i]) && offset == Off(cur, i) && nextoffset == Off(cur, i + 1)
        invariant Sealed(fdt.hdr, fdt.mem[..], rsv, t, cur) && OkToks(cur)
        invariant forall j :: 0 <= j < i ==> cur[j] == Rebased(ts[j], |t|)
        invariant forall j :: i <= j < |ts| ==> cur[j] == ts[j]
        decreases |ts| - i
      {
        SealedScan(fdt, rsv, t, cur);
        if tag == FDT_PROP {
          TokenAt(fdt, cur, i);
          var nameoff := Load(fdt.mem, fdt.hdr.offStruct + offset + 8);
          nameoff := (nameoff + fdt.hdr.sizeStrings) % TWO32;
          Renamed(fdt.hdr, fdt.mem[..], rsv, t, cur, i, nameoff);
          RebasedTok(cur[i], |t|);
          StoreWord(fdt.mem, fdt.hdr.offStruct + offset + 8, nameoff);
          cur := cur[i := Rebased(cur[i], |t|)];
        }
        offset, i := nextoffset, i + 1;
        SealedScan(fdt, rsv, t, cur);
        tag, nextoffset := NextTag(fdt, offset, cur, i);
      }
      assert cur == RebasedAll(ts, |t|);
    }
  }

  lemma {:induction false} EncRsvAppend(l: seq<Rsv>, r: Rsv)
    ensures EncRsv(l + [r]) == EncRsv(l) + (BE64(r.address) + BE64(r.size))
  {
    hide BE64;
    if l == [] {
      assert EncRsv([r]) == BE64(r.address) + BE64(r.size) + EncRsv([r][1..]);
    } else {
      EncRsvAppend(l[1..], r);
      assert (l + [r])[1..] == l[1..] + [r];
      Assoc(BE64(l[0].address) + BE64(l[0].size), EncRsv(l[1..]), BE64(r.address) + BE64(r.size));
    }
  }

  lemma WritingFacts(h: Header, m: bytes, l: seq<Rsv>, es: seq<Event>, ts: seq<Tok>)
    requires Writing(h, m, l, es, ts)
    ensures |Table(h, m)| == h.sizeStrings <= h.totalsize < INT32_MAX && h.totalsize <= |m| && |es| == |ts|
    ensures h.magic == FDT_SW_MAGIC && h.version == 17 && h.offStrings == h.totalsize && 0 < Top(h) && 0 <= Free(h)
  {
  }

  lemma NamedBounds(t: bytes, off: int, s: bytes)
    ensures NamedAt(t, off, s) ==> -|t| <= off < 0
  {
  }

  /** The three words of a property record, stored in a gap. */
  lemma PropertyWords(m: bytes, at: nat, a: nat, n: nat, o: nat, len: nat)
    requires a <= at && at + 12 <= a + n <= |m|
    ensures var m3 := Written(Written(Written(m, at, BE32(FDT_PROP)), at + 8, BE32(o)), at + 4, BE32(len));
      && SameOutside(m, m3, a, n)
      && Occurs(m3, at, BE32(FDT_PROP)) && Occurs(m3, at + 4, BE32(len)) && Occurs(m3, at + 8, BE32(o))
  {
    hide BE32, Written, SameOutside, Occurs;
    var m1 := Written(m, at, BE32(FDT_PROP));
    var m2 := Written(m1, at + 8, BE32(o));
    SameRefl(m, a, n);
    SameWritten(m, m, a, n, at, BE32(FDT_PROP));
    SameWritten(m, m1, a, n, at + 8, BE32(o));
    SameWritten(m, m2, a, n, at + 4, BE32(len));
    WrittenHolds(m, at, BE32(FDT_PROP));
    WrittenKeeps(m1, at + 8, BE32(o), at, BE32(FDT_PROP));
    WrittenHolds(m1, at + 8, BE32(o));
    WrittenKeeps(m2, at + 4, BE32(len), at, BE32(FDT_PROP));
    WrittenKeeps(m2, at + 4, BE32(len), at + 8, BE32(o));
    WrittenHolds(m2, at + 4, BE32(len));
  }

  lemma SealedScan(f: Fdt, l: seq<Rsv>, t: bytes, ts: seq<Tok>)
    requires Sealed(f.hdr, f.mem[..], l, t, ts) && OkToks(ts)
    ensures Scannable(f, ts) && f.hdr.sizeStrings == |t|
  {
  }

  lemma OffZero(ts: seq<Tok>)
    ensures Off(ts, 0) == 0
  {
  }

  lemma RebasedTok(k: Tok, n: nat)
    requires OkTok(k) && k.TProp?
    ensures OkTok(Rebased(k, n)) && Rebased(k, n) == k.(nameoff := (k.nameoff + n) % TWO32)
  {
  }

  /** The tokens of a run are encodable and none is the terminator. */
  lemma DraftsOf(h: Header, m: bytes, l: seq<Rsv>, es: seq<Event>, ts: seq<Tok>)
    requires Writing(h, m, l, es, ts)
    ensures DraftsAll(Table(h, m), es, ts) && OkToks(ts + [TFin]) && forall j :: 0 <= j < |ts| ==> !ts[j].TFin?
  {
    forall j | 0 <= j < |ts|
      ensures OkTok(ts[j]) && !ts[j].TFin?
    {
      assert Drafts(Table(h, m), es[j], ts[j]);
    }
  }

  // ------------------------------------------------------------------ fdt_resize

  /** The new header after fdt_resize. */
  function Resized(h: Header, bufsize: nat): Header {
    h.(totalsize := bufsize, offStrings := if h.offStrings != 0 then bufsize else 0)
  }

  /** Head and tail of the blob at fdt are at the ends of the buffer at buf. */
  ghost predicate Carried(h: Header, m: bytes, fdt: nat, m': bytes, buf: nat, bufsize: nat) {
    && fdt + h.totalsize <= |m| && buf + bufsize <= |m'| && Top(h) + h.sizeStrings <= h.totalsize && Top(h) + h.sizeStrings <= bufsize
    && Occurs(m', buf, m[fdt..fdt + Top(h)])
    && Occurs(m', buf + bufsize - h.sizeStrings, m[fdt + h.totalsize - h.sizeStrings..fdt + h.totalsize])
  }

  /** A run carried over to another buffer is the same run. */
  lemma CarriedRun(h: Header, m: bytes, fdt: nat, m': bytes, buf: nat, bufsize: nat, l: seq<Rsv>, es: seq<Event>, ts: seq<Tok>)
    requires Carried(h, m, fdt, m', buf, bufsize) && bufsize < INT32_MAX
    ensures Reserving(h, m[fdt..fdt + h.totalsize], l) ==> Reserving(Resized(h, bufsize), m'[buf..buf + bufsize], l)
    ensures Writing(h, m[fdt..fdt + h.totalsize], l, es, ts) ==> Writing(Resized(h, bufsize), m'[buf..buf + bufsize], l, es, ts)
  {
    hide Enc, RsvBlock, EncRsv, DraftsAll;
    var b, b', head := m[fdt..fdt + h.totalsize], m'[buf..buf + bufsize], m[fdt..fdt + Top(h)];
    SamePrefix(m, fdt, h.totalsize, m', buf, bufsize, Top(h));
    assert Table(h, b) == m[fdt + h.totalsize - h.sizeStrings..fdt + h.totalsize] == Table(Resized(h, bufsize), b');
    if Reserving(h, b, l) {
      HeadKeeps(b, b', Top(h), SW_HEADER, EncRsv(l));
    }
    if Writing(h, b, l, es, ts) {
      HeadKeeps(b, b', Top(h), SW_HEADER, RsvBlock(l));
      HeadKeeps(b, b', Top(h), h.offStruct, Enc(ts));
    }
  }

  lemma HeadKeeps(b: bytes, b': bytes, n: nat, x: nat, u: bytes)
    requires n <= |b| && n <= |b'| && b[..n] == b'[..n] && Occurs(b, x, u) && x + |u| <= n
    ensures Occurs(b', x, u)
  {
    assert b[x..x + |u|] == b[..n][x..x + |u|] == b'[x..x + |u|];
  }

  lemma SamePrefix(m: bytes, a: nat, n: nat, m': bytes, a': nat, n': nat, k: nat)
    requires a + n <= |m| && a' + n' <= |m'| && k <= n && k <= n' && Occurs(m', a', m[a..a + k])
    ensures m[a..a + n][..k] == m[a..a + k] == m'[a'..a' + n'][..k]
  {
    assert m'[a'..a' + n'][..k] == m'[a'..a' + k];
  }

  lemma SliceOccurs(m: bytes, a: nat, b: nat)
    requires a <= b <= |m|
    ensures Occurs(m, a, m[a..b])
  {
  }

  /** Head first when the buffer moves down: it does not reach the old tail. */
  lemma HeadFirst(h: Header, m: bytes, fdt: nat, buf: nat, bufsize: nat)
    requires fdt + h.totalsize <= |m| && buf + bufsize <= |m| && Top(h) + h.sizeStrings <= h.totalsize
    requires Top(h) + h.sizeStrings <= bufsize && buf <= fdt
    ensures var m1 := Moved(m, buf, fdt, Top(h));
      Carried(h, m, fdt, Moved(m1, buf + bufsize - h.sizeStrings, fdt + h.totalsize - h.sizeStrings, h.sizeStrings), buf, bufsize)
  {
    hide Moved, Occurs;
    var from, to, n := fdt + h.totalsize - h.sizeStrings, buf + bufsize - h.sizeStrings, h.sizeStrings;
    var head, tail, m1 := m[fdt..fdt + Top(h)], m[from..from + n], Moved(m, buf, fdt, Top(h));
    SliceOccurs(m, fdt, fdt + Top(h));
    SliceOccurs(m, from, from + n);
    MovedTo(m, buf, fdt, Top(h), fdt, head);
    MovedPast(m, buf, fdt, Top(h), from, tail);
    MovedTo(m1, to, from, n, from, tail);
    MovedBefore(m1, to, from, n, buf, head);
  }

  /** Tail first when it moves up: the new tail lies past the old head. */
  lemma TailFirst(h: Header, m: bytes, fdt: nat, buf: nat, bufsize: nat)
    requires fdt + h.totalsize <= |m| && buf + bufsize <= |m| && Top(h) + h.sizeStrings <= h.totalsize
    requires Top(h) + h.sizeStrings <= bufsize && fdt < buf
    ensures var m1 := Moved(m, buf + bufsize - h.sizeStrings, fdt + h.totalsize - h.sizeStrings, h.sizeStrings);
      Carried(h, m, fdt, Moved(m1, buf, fdt, Top(h)), buf, bufsize)
  {
    hide Moved, Occurs;
    var from, to, n := fdt + h.totalsize - h.sizeStrings, buf + bufsize - h.sizeStrings, h.sizeStrings;
    var head, tail, m1 := m[fdt..fdt + Top(h)], m[from..from + n], Moved(m, to, from, n);
    SliceOccurs(m, fdt, fdt + Top(h));
    SliceOccurs(m, from, from + n);
    MovedTo(m, to, from, n, from, tail);
    MovedBefore(m, to, from, n, fdt, head);
    MovedTo(m1, buf, fdt, Top(h), fdt, head);
    MovedPast(m1, buf, fdt, Top(h), to, tail);
  }

  /** fdt_resize: fdt and buf are places in one memory, overlapping in any way. */
  method Resize(mem: array<byte>, fdt: nat, h: Header, chkBasic: bool, chkExtra: bool, buf: nat, bufsize: nat) returns (err: int, h': Header)
    requires h.magic == FDT_SW_MAGIC && Top(h) + h.sizeStrings <= h.totalsize
    requires fdt + h.totalsize <= mem.Length < INT32_MAX && buf + bufsize <= mem.Length
    modifies mem
    ensures err == if Top(h) + h.sizeStrings > bufsize then -FDT_ERR_NOSPACE else 0
    ensures err != 0 ==> mem[..] == old(mem[..]) && h' == h
    ensures err == 0 ==> h' == Resized(h, bufsize) && Carried(h, old(mem[..]), fdt, mem[..], buf, bufsize)
  {
    hide Moved, Carried;
    if chkBasic && h.magic == FDT_MAGIC { return -FDT_ERR_BADSTATE, h; }
    if chkBasic && h.magic != FDT_SW_MAGIC { return -FDT_ERR_BADMAGIC, h; }
    var headsize := h.offStruct + h.sizeStruct;
    var tailsize := h.sizeStrings;
    if chkExtra && headsize + tailsize > h.totalsize { return -FDT_ERR_INTERNAL, h; }
    if headsize + tailsize > bufsize { return -FDT_ERR_NOSPACE, h; }
    var oldtail := fdt + h.totalsize - tailsize;
    var newtail := buf + bufsize - tailsize;
    if buf <= fdt {
      HeadFirst(h, mem[..], fdt, buf, bufsize);
      MemMove(mem, buf, fdt, headsize);
      MemMove(mem, newtail, oldtail, tailsize);
    } else {
      TailFirst(h, mem[..], fdt, buf, bufsize);
      MemMove(mem, newtail, oldtail, tailsize);
      MemMove(mem, buf, fdt, headsize);
    }
    h' := h.(totalsize := bufsize);
    if h'.offStrings != 0 {
      h' := h'.(offStrings := bufsize);
    }
    return 0, h';
  }
}
