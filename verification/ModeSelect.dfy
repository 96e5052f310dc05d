/**
  mmc.c: choosing bus width and mode.  Host and card each have their own idea of the bus; a
  command can be lost on the way, refused by the card, or carried out with its response lost.
 */
module ModeSelect {

  const EIO: int := 5
  const EINVAL: int := 22
  const ENOTSUPP: int := 524
  const ECOMM: int := 70
  const ETIMEDOUT: int := 110
  const EBADMSG: int := 74

  datatype Mode = MmcLegacy | SdLegacy | MmcHs | SdHs | MmcHs52 | MmcDdr52
  /** One bit of a capability word. */
  datatype Cap = Speed(mode: Mode) | Bits(width: nat)
  datatype Register = BusWidth | HsTiming

  // ------------------------------------------------------------------ what the standards say

  /** The EXT_CSD bus width byte (183) of a width. */
  function WidthBits(width: nat, ddr: bool): nat {
    (if width == 8 then 2 else if width == 4 then 1 else 0) + if ddr then 4 else 0
  }

  /** The EXT_CSD timing byte (185) of a mode. */
  function TimingBits(m: Mode): nat {
    if m == MmcLegacy then 0 else 1
  }

  /** mmc_is_mode_ddr */
  predicate IsDdr(m: Mode) {
    m == MmcDdr52
  }

  /** mmc_mode2freq; the card says how fast its legacy mode is. */
  function Hertz(m: Mode, legacySpeed: nat): nat {
    match m
    case MmcLegacy => legacySpeed
    case SdLegacy => 25000000
    case MmcHs => 26000000
    case SdHs => 50000000
    case MmcHs52 => 52000000
    case MmcDdr52 => 52000000
  }

  /** The function an SD card is switched to for a mode. */
  function SdSpeed(m: Mode): nat {
    if m == SdHs then 1 else 0
  }

  // ------------------------------------------------------------------ the preference lists

  datatype ModeWidths = ModeWidths(mode: Mode, widths: set<nat>)
  datatype BusWidthEntry = BusWidthEntry(width: nat, ddr: bool, bits: nat)

  /** mmc_modes_by_pref, without the modes that are not configured */
  function MmcModes(): seq<ModeWidths> {
    [ModeWidths(MmcDdr52, {8, 4}), ModeWidths(MmcHs52, {8, 4, 1}), ModeWidths(MmcHs, {8, 4, 1}), ModeWidths(MmcLegacy, {8, 4, 1})]
  }

  /** ext_csd_bus_width */
  function BusWidths(): seq<BusWidthEntry> {
    [BusWidthEntry(8, true, 6), BusWidthEntry(4, true, 5), BusWidthEntry(8, false, 2), BusWidthEntry(4, false, 1), BusWidthEntry(1, false, 0)]
  }

  /** sd_modes_by_pref */
  const SD_MODES: seq<ModeWidths> := [ModeWidths(SdHs, {4, 1}), ModeWidths(SdLegacy, {4, 1})]
  const SD_WIDTHS: seq<nat> := [4, 1]

  /** A bus configuration. */
  datatype Choice = Choice(mode: Mode, width: nat)

  function WidthChoices(m: ModeWidths, caps: set<Cap>, ws: seq<BusWidthEntry>): seq<Choice> {
    if ws == [] then []
    else (if ws[0].ddr == IsDdr(m.mode) && ws[0].width in m.widths && Bits(ws[0].width) in caps then [Choice(m.mode, ws[0].width)] else []) +
         WidthChoices(m, caps, ws[1..])
  }

  /** Every configuration both sides are capable of, best first. */
  function MmcChoices(caps: set<Cap>, ms: seq<ModeWidths>): seq<Choice> {
    if ms == [] then []
    else (if Speed(ms[0].mode) in caps then WidthChoices(ms[0], caps, BusWidths()) else []) + MmcChoices(caps, ms[1..])
  }

  function SdWidthChoices(m: ModeWidths, caps: set<Cap>, ws: seq<nat>): seq<Choice> {
    if ws == [] then []
    else (if ws[0] in m.widths && Bits(ws[0]) in caps then [Choice(m.mode, ws[0])] else []) + SdWidthChoices(m, caps, ws[1..])
  }

  function SdChoices(caps: set<Cap>, ms: seq<ModeWidths>): seq<Choice> {
    if ms == [] then []
    else (if Speed(ms[0].mode) in caps then SdWidthChoices(ms[0], caps, SD_WIDTHS) else []) + SdChoices(caps, ms[1..])
  }

  /** A choice is one of both sides' modes and widths. */
  predicate Allowed(c: Choice, caps: set<Cap>) {
    Speed(c.mode) in caps && Bits(c.width) in caps
  }

  // ------------------------------------------------------------------ what makes one better than another

  /** What one line of the bus transfers in a second. */
  function Rate(c: Choice, legacySpeed: nat): nat {
    if IsDdr(c.mode) then 2 * Hertz(c.mode, legacySpeed) else Hertz(c.mode, legacySpeed)
  }

  /** At least as fast, and at least as wide if it is not faster. */
  predicate NoWorse(a: Choice, b: Choice, legacySpeed: nat) {
    Rate(a, legacySpeed) > Rate(b, legacySpeed) || (Rate(a, legacySpeed) == Rate(b, legacySpeed) && a.width >= b.width)
  }

  /** The configurations of an eMMC and of an SD card: a double data rate needs four lines. */
  predicate IsMmc(c: Choice) {
    c.mode in {MmcLegacy, MmcHs, MmcHs52, MmcDdr52} && c.width in if c.mode == MmcDdr52 then {4, 8} else {1, 4, 8}
  }

  predicate IsSd(c: Choice) {
    c.mode in {SdLegacy, SdHs} && c.width in {1, 4}
  }

  /** The list goes from fast to slow, and within a mode from wide to narrow. */
  ghost predicate FastFirst(l: seq<Choice>, legacySpeed: nat) {
    forall i, j :: 0 <= i < j < |l| ==>
      Rate(l[i], legacySpeed) >= Rate(l[j], legacySpeed) && (l[i].mode == l[j].mode ==> l[i].width > l[j].width)
  }

  /** The list goes from better to worse. */
  ghost predicate BestFirst(l: seq<Choice>, legacySpeed: nat) {
    forall i, j :: 0 <= i < j < |l| ==> NoWorse(l[i], l[j], legacySpeed) && l[i] != l[j]
  }

  /** Those of a list of configurations that both sides are capable of. */
  function Kept(l: seq<Choice>, caps: set<Cap>): (r: seq<Choice>)
    ensures |r| <= |l|
  {
    if l == [] then [] else (if Allowed(l[0], caps) then [l[0]] else []) + Kept(l[1..], caps)
  }

  lemma {:induction false} KeptCat(a: seq<Choice>, b: seq<Choice>, caps: set<Cap>)
    ensures Kept(a + b, caps) == Kept(a, caps) + Kept(b, caps)
  {
    hide Allowed;
    if a == [] {
      assert a + b == b;
    } else {
      KeptCat(a[1..], b, caps);
      assert (a + b)[0] == a[0] && (a + b)[1..] == a[1..] + b;
      Shift3(if Allowed(a[0], caps) then [a[0]] else [], Kept(a[1..], caps), Kept(b, caps));
    }
  }

  lemma Shift3(a: seq<Choice>, b: seq<Choice>, c: seq<Choice>)
    ensures a + (b + c) == (a + b) + c
  {
  }

  lemma {:induction false} KeptIn(l: seq<Choice>, caps: set<Cap>, c: Choice)
    ensures c in Kept(l, caps) <==> c in l && Allowed(c, caps)
  {
    if l != [] {
      KeptIn(l[1..], caps, c);
    }
  }

  /** Where the one at place i comes from; the order stays. */
  lemma {:induction false} KeptFrom(l: seq<Choice>, caps: set<Cap>, i: nat, j: nat) returns (i': nat, j': nat)
    requires i < j < |Kept(l, caps)|
    ensures i' < j' < |l| && l[i'] == Kept(l, caps)[i] && l[j'] == Kept(l, caps)[j]
  {
    var r := Kept(l[1..], caps);
    if !Allowed(l[0], caps) {
      i', j' := KeptFrom(l[1..], caps, i, j);
      i', j' := i' + 1, j' + 1;
    } else if i > 0 {
      i', j' := KeptFrom(l[1..], caps, i - 1, j - 1);
      i', j' := i' + 1, j' + 1;
    } else {
      KeptIn(l[1..], caps, r[j - 1]);
      assert r[j - 1] in l[1..];
      var k :| 0 <= k < |l[1..]| && l[1..][k] == r[j - 1];
      i', j' := 0, k + 1;
    }
  }

  /** All configurations of an eMMC, in the order they are tried. */
  function MmcAll(): seq<Choice> {
    [Choice(MmcDdr52, 8), Choice(MmcDdr52, 4), Choice(MmcHs52, 8), Choice(MmcHs52, 4), Choice(MmcHs52, 1),
     Choice(MmcHs, 8), Choice(MmcHs, 4), Choice(MmcHs, 1), Choice(MmcLegacy, 8), Choice(MmcLegacy, 4), Choice(MmcLegacy, 1)]
  }

  function SdAll(): seq<Choice> {
    [Choice(SdHs, 4), Choice(SdHs, 1), Choice(SdLegacy, 4), Choice(SdLegacy, 1)]
  }

  /** The widths of one mode. */
  lemma OneMode(m: Mode, caps: set<Cap>)
    ensures Speed(m) in caps && !IsDdr(m) ==>
      WidthChoices(ModeWidths(m, {8, 4, 1}), caps, BusWidths()) == Kept([Choice(m, 8)] + [Choice(m, 4)] + [Choice(m, 1)], caps)
    ensures Speed(m) in caps && IsDdr(m) ==> WidthChoices(ModeWidths(m, {8, 4}), caps, BusWidths()) == Kept([Choice(m, 8)] + [Choice(m, 4)], caps)
    ensures Speed(m) !in caps ==> Kept([Choice(m, 8)] + [Choice(m, 4)] + [Choice(m, 1)], caps) == [] == Kept([Choice(m, 8)] + [Choice(m, 4)], caps)
  {
    hide Kept, WidthChoices;
    var ws, x := BusWidths(), ModeWidths(m, if IsDdr(m) then {8, 4} else {8, 4, 1});
    assert ws[0..] == ws && ws[5..] == [];
    NextWidth(x, caps, ws, 0);
    NextWidth(x, caps, ws, 1);
    NextWidth(x, caps, ws, 2);
    NextWidth(x, caps, ws, 3);
    NextWidth(x, caps, ws, 4);
    NoWidth(x, caps);
    KeptCat([Choice(m, 8)] + [Choice(m, 4)], [Choice(m, 1)], caps);
    KeptCat([Choice(m, 8)], [Choice(m, 4)], caps);
    KeptOne(Choice(m, 8), caps);
    KeptOne(Choice(m, 4), caps);
    KeptOne(Choice(m, 1), caps);
  }

  lemma KeptOne(c: Choice, caps: set<Cap>)
    ensures Kept([c], caps) == if Allowed(c, caps) then [c] else []
  {
    assert Kept([c][1..], caps) == [];
  }

  lemma NoWidth(m: ModeWidths, caps: set<Cap>)
    ensures WidthChoices(m, caps, []) == [] && SdWidthChoices(m, caps, []) == []
  {
  }

  lemma MmcKept(caps: set<Cap>)
    ensures MmcChoices(caps, MmcModes()) == Kept(MmcAll(), caps)
  {
    hide Kept, WidthChoices, BusWidths, MmcChoices;
    var ms := MmcModes();
    assert ms[0..] == ms && ms[4..] == [];
    NextMode(caps, ms, 0);
    NextMode(caps, ms, 1);
    NextMode(caps, ms, 2);
    NextMode(caps, ms, 3);
    NoMode(caps);
    OneMode(MmcDdr52, caps);
    OneMode(MmcHs52, caps);
    OneMode(MmcHs, caps);
    OneMode(MmcLegacy, caps);
    var a, b := [Choice(MmcDdr52, 8)] + [Choice(MmcDdr52, 4)], [Choice(MmcHs52, 8)] + [Choice(MmcHs52, 4)] + [Choice(MmcHs52, 1)];
    var c, d := [Choice(MmcHs, 8)] + [Choice(MmcHs, 4)] + [Choice(MmcHs, 1)], [Choice(MmcLegacy, 8)] + [Choice(MmcLegacy, 4)] + [Choice(MmcLegacy, 1)];
    KeptCat(c, d, caps);
    KeptCat(b, c + d, caps);
    KeptCat(a, b + (c + d), caps);
    assert a + (b + (c + d)) == MmcAll();
    assert Kept(d, caps) + [] == Kept(d, caps);
  }

  /** A configuration is on the list exactly if it is one of an eMMC and both sides are capable of it. */
  lemma MmcListed(caps: set<Cap>, c: Choice)
    ensures c in MmcChoices(caps, MmcModes()) <==> IsMmc(c) && Allowed(c, caps)
  {
    MmcKept(caps);
    KeptIn(MmcAll(), caps, c);
  }

  lemma MmcOrdered(legacySpeed: nat, i: nat, j: nat)
    requires i < j < |MmcAll()| && legacySpeed <= 26000000
    ensures Rate(MmcAll()[i], legacySpeed) >= Rate(MmcAll()[j], legacySpeed)
    ensures MmcAll()[i].mode == MmcAll()[j].mode ==> MmcAll()[i].width > MmcAll()[j].width
    ensures MmcAll()[i].mode != MmcAll()[j].mode && legacySpeed < 26000000 ==> Rate(MmcAll()[i], legacySpeed) > Rate(MmcAll()[j], legacySpeed)
    ensures MmcAll()[i].mode !in {MmcHs, MmcLegacy} && MmcAll()[i].mode != MmcAll()[j].mode ==> Rate(MmcAll()[i], legacySpeed) > Rate(MmcAll()[j], legacySpeed)
  {
  }

  /** The list goes from fast to slow if legacy mode is no faster than high speed, and then even from better to worse if it is slower. */
  lemma MmcBestFirst(caps: set<Cap>, legacySpeed: nat)
    ensures legacySpeed <= 26000000 ==> FastFirst(MmcChoices(caps, MmcModes()), legacySpeed)
    ensures legacySpeed < 26000000 ==> BestFirst(MmcChoices(caps, MmcModes()), legacySpeed)
  {
    hide MmcAll, MmcModes, MmcChoices, Rate;
    var l := MmcChoices(caps, MmcModes());
    MmcKept(caps);
    if legacySpeed <= 26000000 {
      forall i, j | 0 <= i < j < |l|
        ensures Rate(l[i], legacySpeed) >= Rate(l[j], legacySpeed) && (l[i].mode == l[j].mode ==> l[i].width > l[j].width)
        ensures legacySpeed < 26000000 ==> NoWorse(l[i], l[j], legacySpeed) && l[i] != l[j]
      {
        var i', j' := KeptFrom(MmcAll(), caps, i, j);
        MmcOrdered(legacySpeed, i', j');
        if l[i].mode == l[j].mode {
          assert Rate(l[i], legacySpeed) == Rate(l[j], legacySpeed) by { SameRate(l[i], l[j], legacySpeed); }
        }
      }
    }
  }

  lemma SameRate(a: Choice, b: Choice, legacySpeed: nat)
    requires a.mode == b.mode
    ensures Rate(a, legacySpeed) == Rate(b, legacySpeed)
  {
  }

  /** With both of these modes and any width, 26 MHz is the exact limit. */
  lemma MmcTooFast(caps: set<Cap>, legacySpeed: nat, w: nat)
    requires Speed(MmcHs) in caps && Speed(MmcLegacy) in caps && w in {1, 4, 8} && Bits(w) in caps
    ensures FastFirst(MmcChoices(caps, MmcModes()), legacySpeed) <==> legacySpeed <= 26000000
  {
    hide MmcAll, MmcModes, MmcChoices;
    MmcBestFirst(caps, legacySpeed);
    if legacySpeed > 26000000 {
      var a, b := Choice(MmcHs, w), Choice(MmcLegacy, w);
      var i, j := MmcHsBefore(caps, w);
      assert Rate(a, legacySpeed) < Rate(b, legacySpeed);
    }
  }

  lemma MmcHsBefore(caps: set<Cap>, w: nat) returns (i: nat, j: nat)
    requires Speed(MmcHs) in caps && Speed(MmcLegacy) in caps && w in {1, 4, 8} && Bits(w) in caps
    ensures var l := MmcChoices(caps, MmcModes()); i < j < |l| && l[i] == Choice(MmcHs, w) && l[j] == Choice(MmcLegacy, w)
  {
    hide MmcModes, MmcChoices;
    var l, a, b := MmcChoices(caps, MmcModes()), Choice(MmcHs, w), Choice(MmcLegacy, w);
    MmcListed(caps, a);
    MmcListed(caps, b);
    i :| 0 <= i < |l| && l[i] == a;
    j :| 0 <= j < |l| && l[j] == b;
    MmcBestFirst(caps, 0);
    assert j < i ==> Rate(l[j], 0) >= Rate(l[i], 0);
  }

  /** The first one tried is the best of all that both sides are capable of. */
  lemma MmcBest(caps: set<Cap>, legacySpeed: nat, c: Choice)
    requires legacySpeed <= 26000000 && IsMmc(c) && Allowed(c, caps)
    ensures var l := MmcChoices(caps, MmcModes()); l != [] && NoWorse(l[0], c, legacySpeed)
  {
    hide MmcModes, MmcChoices;
    var l := MmcChoices(caps, MmcModes());
    MmcListed(caps, c);
    MmcBestFirst(caps, legacySpeed);
    MmcListed(caps, l[0]);
    var j :| 0 <= j < |l| && l[j] == c;
    if j > 0 && l[0].mode != c.mode && Rate(l[0], legacySpeed) == Rate(c, legacySpeed) {
      var d := Choice(l[0].mode, c.width);
      assert d.mode in {MmcHs, MmcLegacy};
      MmcListed(caps, d);
      var k :| 0 <= k < |l| && l[k] == d;
      assert k == 0 || l[0].width > l[k].width;
    }
  }

  lemma SdKept(caps: set<Cap>)
    ensures SdChoices(caps, SD_MODES) == Kept(SdAll(), caps)
  {
    hide Kept, SdWidthChoices, SdChoices;
    var ms := SD_MODES;
    assert ms[0..] == ms && ms[2..] == [];
    NextSdMode(caps, ms, 0);
    NextSdMode(caps, ms, 1);
    NoMode(caps);
    OneSdMode(SdHs, caps);
    OneSdMode(SdLegacy, caps);
    KeptCat([Choice(SdHs, 4)] + [Choice(SdHs, 1)], [Choice(SdLegacy, 4)] + [Choice(SdLegacy, 1)], caps);
    assert ([Choice(SdHs, 4)] + [Choice(SdHs, 1)]) + ([Choice(SdLegacy, 4)] + [Choice(SdLegacy, 1)]) == SdAll();
    var d := [Choice(SdLegacy, 4)] + [Choice(SdLegacy, 1)];
    assert Kept(d, caps) + [] == Kept(d, caps);
  }

  lemma OneSdMode(m: Mode, caps: set<Cap>)
    ensures Kept([Choice(m, 4)] + [Choice(m, 1)], caps) == if Speed(m) in caps then SdWidthChoices(ModeWidths(m, {4, 1}), caps, SD_WIDTHS) else []
  {
    hide Kept, SdWidthChoices;
    var ws, x := SD_WIDTHS, ModeWidths(m, {4, 1});
    assert ws[0..] == ws && ws[2..] == [];
    NextSdWidth(x, caps, ws, 0);
    NextSdWidth(x, caps, ws, 1);
    NoWidth(x, caps);
    KeptCat([Choice(m, 4)], [Choice(m, 1)], caps);
    KeptOne(Choice(m, 4), caps);
    KeptOne(Choice(m, 1), caps);
  }

  lemma SdListed(caps: set<Cap>, c: Choice)
    ensures c in SdChoices(caps, SD_MODES) <==> IsSd(c) && Allowed(c, caps)
  {
    SdKept(caps);
    KeptIn(SdAll(), caps, c);
  }

  lemma SdOrdered(i: nat, j: nat)
    requires i < j < |SdAll()|
    ensures NoWorse(SdAll()[i], SdAll()[j], 0) && SdAll()[i] != SdAll()[j]
  {
  }

  /** The frequencies of an SD card are fixed, so its list always goes from better to worse. */
  lemma SdBestFirst(caps: set<Cap>)
    ensures BestFirst(SdChoices(caps, SD_MODES), 0)
  {
    hide SdAll, SdChoices, NoWorse;
    var l := SdChoices(caps, SD_MODES);
    SdKept(caps);
    forall i, j | 0 <= i < j < |l|
      ensures NoWorse(l[i], l[j], 0) && l[i] != l[j]
    {
      var i', j' := KeptFrom(SdAll(), caps, i, j);
      SdOrdered(i', j');
    }
  }

  lemma SdBest(caps: set<Cap>, c: Choice)
    requires IsSd(c) && Allowed(c, caps)
    ensures var l := SdChoices(caps, SD_MODES); l != [] && NoWorse(l[0], c, 0)
  {
    hide SdChoices;
    var l := SdChoices(caps, SD_MODES);
    SdListed(caps, c);
    SdBestFirst(caps);
    var j :| 0 <= j < |l| && l[j] == c;
  }

  class Mmc {
    // the host
    const fMin: nat
    const fMax: nat
    const hostCaps: set<Cap>
    const legacySpeed: nat
    var selectedMode: Mode
    var tranSpeed: nat
    var ddrMode: bool
    var busWidth: nat
    var clock: nat
    // the card
    var cardWidth: nat
    var cardTiming: nat
    var sdWidth: nat
    var sdSpeed: nat
    /** Whether the card refused the last switch it received. */
    var refused: bool
    /** How often something has gone wrong: a lost command or answer, a refusal, a timeout, a bad read. */
    ghost var faults: nat

    constructor (lo: nat, hi: nat, caps: set<Cap>, legacy: nat)
      requires lo <= hi
      ensures fMin == lo && fMax == hi && hostCaps == caps && legacySpeed == legacy
    {
      fMin, fMax, hostCaps, legacySpeed := lo, hi, caps, legacy;
      selectedMode, tranSpeed, ddrMode, busWidth, clock := MmcLegacy, legacy, false, 1, lo;
      cardWidth, cardTiming, sdWidth, sdSpeed, refused, faults := 0, 0, 1, 0, false, 0;
    }

    /** Host and card of an eMMC agree on width, data rate and timing. */
    predicate MmcAgree()
      reads this
    {
      cardWidth == WidthBits(busWidth, ddrMode) && ddrMode == IsDdr(selectedMode) && cardTiming == TimingBits(selectedMode)
    }

    predicate ClockInRange()
      reads this
    {
      fMin <= clock <= fMax
    }

    // ---------------------------------------------------------------- the host side

    function Freq(m: Mode): nat
    {
      Hertz(m, legacySpeed)
    }

    method SelectMode(m: Mode)
      modifies `selectedMode, `tranSpeed, `ddrMode
      ensures selectedMode == m && tranSpeed == Freq(m) && ddrMode == IsDdr(m)
    {
      selectedMode := m;
      tranSpeed := Freq(m);
      ddrMode := IsDdr(m);
    }

    method SetClock(hz: nat, disable: bool)
      requires fMin <= fMax
      modifies `clock
      ensures disable ==> clock == hz
      ensures !disable ==> ClockInRange() && clock == if hz > fMax then fMax else if hz < fMin then fMin else hz
    {
      var c := hz;
      if !disable {
        if c > fMax {
          c := fMax;
        }
        if c < fMin {
          c := fMin;
        }
      }
      clock := c;
    }

    // ---------------------------------------------------------------- the card side

    /** MMC_CMD_SWITCH of one byte, as far as the host can tell. */
    method SendSwitch(r: Register, value: nat) returns (ret: int)
      modifies `cardWidth, `cardTiming, `refused, `faults
      ensures faults >= old(faults) && (ret != 0 || refused ==> faults > old(faults))
      ensures ret == 0 && !refused ==> (if r == BusWidth then cardWidth else cardTiming) == value
      ensures r == BusWidth ==> cardTiming == old(cardTiming) && (cardWidth == value || cardWidth == old(cardWidth))
      ensures r == HsTiming ==> cardWidth == old(cardWidth) && (cardTiming == value || cardTiming == old(cardTiming))
    {
      var heard: bool := *;
      var answered: bool := *;
      if !heard || !answered {
        faults := faults + 1;
      }
      if !heard { return -ETIMEDOUT; }
      refused := *;
      if refused {
        faults := faults + 1;
      }
      if !refused {
        if r == BusWidth {
          cardWidth := value;
        } else {
          cardTiming := value;
        }
      }
      return if answered then 0 else -ETIMEDOUT;
    }

    /** mmc_send_status: five tries. */
    method SendStatus() returns (err: int, switchError: bool, ready: bool)
      modifies `faults
      ensures faults >= old(faults) && (err != 0 ==> faults > old(faults))
      ensures err == 0 ==> switchError == refused
    {
      var retries := 5;
      switchError, ready := false, false;
      while retries > 0
        invariant faults >= old(faults) && (retries < 5 ==> faults > old(faults))
      {
        retries := retries - 1;
        var answered: bool := *;
        if answered {
          ready := *;
          return 0, refused, ready;
        }
        faults := faults + 1;
      }
      return -ECOMM, false, false;
    }

    /** mmc_switch; polls bounds how often the status is read before the timeout. */
    method Switch(r: Register, value: nat, polls: nat) returns (ret: int)
      modifies `cardWidth, `cardTiming, `refused, `faults
      ensures faults >= old(faults) && (ret != 0 ==> faults > old(faults))
      ensures ret == 0 ==> (if r == BusWidth then cardWidth else cardTiming) == value
      ensures r == BusWidth ==> cardTiming == old(cardTiming) && (cardWidth == value || cardWidth == old(cardWidth))
      ensures r == HsTiming ==> cardWidth == old(cardWidth) && (cardTiming == value || cardTiming == old(cardTiming))
    {
      var retries := 3;
      ret := SendSwitch(r, value);
      while ret != 0 && retries > 0
        invariant faults >= old(faults) && (ret != 0 || refused ==> faults > old(faults))
        invariant ret == 0 && !refused ==> (if r == BusWidth then cardWidth else cardTiming) == value
        invariant r == BusWidth ==> cardTiming == old(cardTiming) && (cardWidth == value || cardWidth == old(cardWidth))
        invariant r == HsTiming ==> cardWidth == old(cardWidth) && (cardTiming == value || cardTiming == old(cardTiming))
        decreases retries
      {
        retries := retries - 1;
        ret := SendSwitch(r, value);
      }
      if ret != 0 { return; }
      var k := polls;
      while true
        invariant faults >= old(faults) && (refused ==> faults > old(faults))
        decreases k
        modifies `faults
      {
        var err, switchError, ready := SendStatus();
        if err == 0 && switchError { return -EIO; }
        if err == 0 && ready { return 0; }
        if k == 0 { break; }
        k := k - 1;
      }
      faults := faults + 1;
      return -ETIMEDOUT;
    }

    /** mmc_send_ext_csd, as far as the timing byte goes. */
    method SendExtCsd() returns (err: int, timing: nat)
      modifies `faults
      ensures faults >= old(faults) && (err != 0 ==> faults > old(faults))
      ensures err == 0 ==> timing == cardTiming
    {
      var answered: bool := *;
      if !answered {
        faults := faults + 1;
      }
      return if answered then 0 else -ETIMEDOUT, cardTiming;
    }

    /** mmc_set_card_speed */
    method SetCardSpeed(m: Mode, polls: nat) returns (err: int)
      modifies `cardWidth, `cardTiming, `refused, `faults
      ensures faults >= old(faults) && (err != 0 && m in {MmcLegacy, MmcHs, MmcHs52, MmcDdr52} ==> faults > old(faults))
      ensures err == 0 ==> cardTiming == TimingBits(m) && m in {MmcLegacy, MmcHs, MmcHs52, MmcDdr52}
      ensures cardWidth == old(cardWidth)
    {
      var speedBits := 0;
      match m {
        case MmcHs => speedBits := 1;
        case MmcHs52 => speedBits := 1;
        case MmcDdr52 => speedBits := 1;
        case MmcLegacy => speedBits := 0;
        case _ => return -EINVAL;
      }
      err := Switch(HsTiming, speedBits, polls);
      if err != 0 { return; }
      if m == MmcHs || m == MmcHs52 {
        var timing;
        err, timing := SendExtCsd();
        if err != 0 { return; }
        if timing == 0 { return -ENOTSUPP; }
      }
      return 0;
    }

    // ---------------------------------------------------------------- eMMC

    /** One configuration tried: the body of the two loops of mmc_select_mode_and_width. */
    method TryMmc(m: Mode, w: BusWidthEntry, versionAtLeast4: bool, polls: nat) returns (err: int)
      requires w in BusWidths() && w.ddr == IsDdr(m) && m in {MmcLegacy, MmcHs, MmcHs52, MmcDdr52} && fMin <= fMax && ClockInRange()
      modifies this
      ensures ClockInRange() && faults >= old(faults) && (err != 0 ==> faults > old(faults))
      ensures if err == 0 then MmcAgree() && selectedMode == m && busWidth == w.width && (fMin <= Freq(m) <= fMax ==> clock == Freq(m))
              else selectedMode == MmcLegacy && busWidth == 1 && !ddrMode
    {
      err := Switch(BusWidth, w.bits % 4, polls);
      if err == 0 {
        busWidth := w.width;
        err := SetCardSpeed(m, polls);
      }
      if err == 0 && w.bits / 4 % 2 == 1 {
        err := Switch(BusWidth, w.bits, polls);
      }
      if err == 0 {
        SelectMode(m);
        SetClock(tranSpeed, false);
        var good: bool := *;
        err := if !versionAtLeast4 || good then 0 else -EBADMSG;
        if err == 0 { return; }
        faults := faults + 1;
      }
      var ignored := Switch(BusWidth, 0, polls);
      SelectMode(MmcLegacy);
      busWidth := 1;
    }

    /** Nothing tried yet, or everything tried failed: the host is in legacy mode at one bit. */
    ghost predicate FellBack(tried: seq<Choice>)
      reads this
    {
      tried != [] ==> selectedMode == MmcLegacy && busWidth == 1 && !ddrMode
    }

    /** The configuration in use is the last one tried, is allowed, and both sides agree on it. */
    ghost predicate Settled(tried: seq<Choice>, caps: set<Cap>)
      reads this
    {
      var c := Choice(selectedMode, busWidth);
      && MmcAgree() && Allowed(c, caps) && tried != [] && tried[|tried| - 1] == c
      && (fMin <= Freq(selectedMode) <= fMax ==> clock == Freq(selectedMode))
    }

    /** The inner loop: the widths of one mode. */
    method TryWidths(mwt: ModeWidths, caps: set<Cap>, versionAtLeast4: bool, polls: nat, ghost before: seq<Choice>)
        returns (err: int, ghost tried: seq<Choice>)
      requires fMin <= fMax && ClockInRange() && FellBack(before) && Speed(mwt.mode) in caps && mwt in MmcModes()
      modifies this
      ensures ClockInRange() && |tried| - |before| <= faults - old(faults) + if err == 0 then 1 else 0
      ensures err == 0 ==> before <= tried <= before + WidthChoices(mwt, caps, BusWidths()) && Settled(tried, caps)
      ensures err != 0 ==> tried == before + WidthChoices(mwt, caps, BusWidths()) && FellBack(tried)
    {
      hide BusWidths;
      tried := before;
      err := -ENOTSUPP;
      for j := 0 to |BusWidths()|
        invariant ClockInRange() && before <= tried && FellBack(tried) && err != 0 && |tried| - |before| <= faults - old(faults)
        invariant tried + WidthChoices(mwt, caps, BusWidths()[j..]) == before + WidthChoices(mwt, caps, BusWidths())
      {
        var ecbw := BusWidths()[j];
        NextWidth(mwt, caps, BusWidths(), j);
        if ecbw.ddr == IsDdr(mwt.mode) && ecbw.width in mwt.widths && Bits(ecbw.width) in caps {
          ghost var c := Choice(mwt.mode, ecbw.width);
          Shift(tried, c, WidthChoices(mwt, caps, BusWidths()[j + 1..]));
          tried := tried + [c];
          err := TryMmc(mwt.mode, ecbw, versionAtLeast4, polls);
          if err == 0 { return; }
        }
      }
      assert WidthChoices(mwt, caps, []) == [];
    }

    /**
      mmc_select_mode_and_width.  tried lists the configurations tried, in order of preference: on
      success all the better ones failed, on failure all failed, and nothing fails but by a fault.
     */
    method SelectModeAndWidth(cardCaps: set<Cap>, spi: bool, versionAtLeast4: bool, haveExtCsd: bool, polls: nat)
        returns (err: int, ghost tried: seq<Choice>)
      requires fMin <= fMax
      modifies this
      ensures spi ==> err == 0 && ClockInRange() && selectedMode == MmcLegacy && busWidth == 1
      ensures !spi && !versionAtLeast4 ==> err == 0 && unchanged(this)
      ensures !spi && versionAtLeast4 && !haveExtCsd ==> err == -ENOTSUPP && unchanged(this)
      ensures !spi && versionAtLeast4 && haveExtCsd ==> Negotiated(err, tried, cardCaps * hostCaps)
      ensures !spi && versionAtLeast4 && haveExtCsd && faults == old(faults) ==>
        (err == 0 <==> exists c :: IsMmc(c) && Allowed(c, cardCaps * hostCaps))
      ensures !spi && versionAtLeast4 && haveExtCsd && faults == old(faults) && legacySpeed <= 26000000 ==>
        forall c :: IsMmc(c) && Allowed(c, cardCaps * hostCaps) ==> NoWorse(Choice(selectedMode, busWidth), c, legacySpeed)
      ensures |tried| <= faults - old(faults) + if err == 0 then 1 else 0
    {
      tried := [];
      if spi {
        busWidth := 1;
        SelectMode(MmcLegacy);
        SetClock(tranSpeed, false);
        return 0, [];
      }
      var caps := cardCaps * hostCaps;
      if !versionAtLeast4 { return 0, []; }
      if !haveExtCsd { return -ENOTSUPP, []; }
      err, tried := TryModes(caps, versionAtLeast4, polls);
      if faults == old(faults) {
        FirstTaken(err, tried, caps);
      }
    }

    /** Without a fault the first configuration is taken: the best one, if there is any. */
    lemma FirstTaken(err: int, tried: seq<Choice>, caps: set<Cap>)
      requires Negotiated(err, tried, caps) && |tried| <= if err == 0 then 1 else 0
      ensures err == 0 <==> exists c :: IsMmc(c) && Allowed(c, caps)
      ensures legacySpeed <= 26000000 ==> forall c :: IsMmc(c) && Allowed(c, caps) ==> NoWorse(Choice(selectedMode, busWidth), c, legacySpeed)
    {
      hide MmcChoices, MmcModes, NoWorse;
      var l := MmcChoices(caps, MmcModes());
      forall c | IsMmc(c) && Allowed(c, caps)
        ensures l != [] && (legacySpeed <= 26000000 ==> NoWorse(l[0], c, legacySpeed))
      {
        MmcListed(caps, c);
        if legacySpeed <= 26000000 {
          MmcBest(caps, legacySpeed, c);
        }
      }
      if l != [] {
        MmcListed(caps, l[0]);
      }
    }

    /** The outer loop, from the legacy clock on. */
    method TryModes(caps: set<Cap>, versionAtLeast4: bool, polls: nat) returns (err: int, ghost tried: seq<Choice>)
      requires fMin <= fMax
      modifies this
      ensures Negotiated(err, tried, caps)
      ensures |tried| <= faults - old(faults) + if err == 0 then 1 else 0
    {
      hide MmcChoices, WidthChoices, MmcModes, BusWidths, Settled;
      NoMode(caps);
      tried := [];
      SetClock(legacySpeed, false);
      assert MmcModes()[0..] == MmcModes();
      for i := 0 to |MmcModes()|
        invariant ClockInRange() && FellBack(tried) && |tried| <= faults - old(faults)
        invariant tried + MmcChoices(caps, MmcModes()[i..]) == MmcChoices(caps, MmcModes())
      {
        var mwt := MmcModes()[i];
        NextMode(caps, MmcModes(), i);
        if Speed(mwt.mode) in caps {
          ghost var before := tried;
          err, tried := TryWidths(mwt, caps, versionAtLeast4, polls, tried);
          Regroup(before, tried, WidthChoices(mwt, caps, BusWidths()), MmcChoices(caps, MmcModes()[i + 1..]));
          if err == 0 { return; }
        }
      }
      assert MmcModes()[|MmcModes()|..] == [] && tried + [] == tried;
      return -ENOTSUPP, tried;
    }

    // ---------------------------------------------------------------- SD

    /** The card's width and function are those of the host; version 1.0 cards have no functions. */
    predicate SdAgree(version10: bool)
      reads this
    {
      sdWidth == busWidth && !ddrMode && (version10 || sdSpeed == SdSpeed(selectedMode))
    }

    /** sd_select_bus_width: CMD55, then ACMD6. */
    method SdSelectBusWidth(w: nat) returns (err: int)
      modifies `sdWidth, `faults
      ensures faults >= old(faults) && (err != 0 && w in {1, 4} ==> faults > old(faults))
      ensures err == 0 ==> sdWidth == w
    {
      if w != 4 && w != 1 { return -EINVAL; }
      var acmd: bool := *;
      var heard: bool := *;
      var answered: bool := *;
      if !acmd || !heard || !answered {
        faults := faults + 1;
      }
      if !acmd { return -ETIMEDOUT; }
      if heard {
        sdWidth := w;
      }
      return if heard && answered then 0 else -ETIMEDOUT;
    }

    /** sd_set_card_speed: the card reports the function it has switched to. */
    method SdSetCardSpeed(m: Mode, version10: bool) returns (err: int)
      modifies `sdSpeed, `faults
      ensures faults >= old(faults) && (err != 0 && m in {SdLegacy, SdHs} ==> faults > old(faults))
      ensures err == 0 ==> version10 || sdSpeed == SdSpeed(m)
    {
      if version10 { return 0; }
      var speed := 0;
      match m {
        case SdLegacy => speed := 0;
        case SdHs => speed := 1;
        case _ => return -EINVAL;
      }
      var heard: bool := *;
      var answered: bool := *;
      var able: bool := *;
      if !heard || !answered || !able {
        faults := faults + 1;
      }
      if heard && able {
        sdSpeed := speed;
      }
      if !heard || !answered { return -ETIMEDOUT; }
      var reported := if able then sdSpeed else 0xf;
      if reported != speed { return -ENOTSUPP; }
      return 0;
    }

    /** One configuration tried: the body of the two loops of sd_select_mode_and_width. */
    method TrySd(m: Mode, w: nat, version10: bool) returns (err: int)
      requires m in {SdHs, SdLegacy} && w in {1, 4} && fMin <= fMax
      modifies this
      ensures ClockInRange() && faults >= old(faults) && (err != 0 ==> faults > old(faults))
      ensures if err == 0 then SdAgree(version10) && selectedMode == m && busWidth == w && (fMin <= Freq(m) <= fMax ==> clock == Freq(m))
              else selectedMode == SdLegacy && !ddrMode
    {
      err := SdSelectBusWidth(w);
      if err == 0 {
        busWidth := w;
        err := SdSetCardSpeed(m, version10);
      }
      if err == 0 {
        SelectMode(m);
        SetClock(tranSpeed, false);
        return 0;
      }
      SelectMode(SdLegacy);
      SetClock(tranSpeed, false);
    }

    ghost predicate SdFellBack(tried: seq<Choice>)
      reads this
    {
      tried != [] ==> selectedMode == SdLegacy && !ddrMode && ClockInRange()
    }

    ghost predicate SdSettled(tried: seq<Choice>, caps: set<Cap>, version10: bool)
      reads this
    {
      var c := Choice(selectedMode, busWidth);
      && SdAgree(version10) && Allowed(c, caps) && tried != [] && tried[|tried| - 1] == c && ClockInRange()
      && (fMin <= Freq(selectedMode) <= fMax ==> clock == Freq(selectedMode))
    }

    /** Without a fault the first configuration of an SD card is taken. */
    lemma SdFirstTaken(caps: set<Cap>, err: int, tried: seq<Choice>, version10: bool)
      requires tried <= SdChoices(caps, SD_MODES) && |tried| <= if err == 0 then 1 else 0
      requires if err == 0 then SdSettled(tried, caps, version10) else tried == SdChoices(caps, SD_MODES)
      ensures err == 0 <==> exists c :: IsSd(c) && Allowed(c, caps)
      ensures forall c :: IsSd(c) && Allowed(c, caps) ==> NoWorse(Choice(selectedMode, busWidth), c, legacySpeed)
    {
      hide SdChoices;
      var l := SdChoices(caps, SD_MODES);
      forall c | IsSd(c) && Allowed(c, caps)
        ensures l != [] && NoWorse(l[0], c, legacySpeed)
      {
        SdBest(caps, c);
        SdListed(caps, l[0]);
      }
      if l != [] {
        SdListed(caps, l[0]);
      }
    }

    method SdTryWidths(mwt: ModeWidths, caps: set<Cap>, version10: bool, ghost before: seq<Choice>)
        returns (err: int, ghost tried: seq<Choice>)
      requires fMin <= fMax && SdFellBack(before) && Speed(mwt.mode) in caps && mwt.mode in {SdHs, SdLegacy}
      modifies this
      ensures |tried| - |before| <= faults - old(faults) + if err == 0 then 1 else 0
      ensures err == 0 ==> before <= tried <= before + SdWidthChoices(mwt, caps, SD_WIDTHS) && SdSettled(tried, caps, version10)
      ensures err != 0 ==> tried == before + SdWidthChoices(mwt, caps, SD_WIDTHS) && SdFellBack(tried)
    {
      tried := before;
      err := -ENOTSUPP;
      for j := 0 to |SD_WIDTHS|
        invariant before <= tried && SdFellBack(tried) && err != 0 && |tried| - |before| <= faults - old(faults)
        invariant tried + SdWidthChoices(mwt, caps, SD_WIDTHS[j..]) == before + SdWidthChoices(mwt, caps, SD_WIDTHS)
      {
        var w := SD_WIDTHS[j];
        NextSdWidth(mwt, caps, SD_WIDTHS, j);
        if w in mwt.widths && Bits(w) in caps {
          ghost var c := Choice(mwt.mode, w);
          Shift(tried, c, SdWidthChoices(mwt, caps, SD_WIDTHS[j + 1..]));
          tried := tried + [c];
          err := TrySd(mwt.mode, w, version10);
          if err == 0 { return; }
        }
      }
      assert SdWidthChoices(mwt, caps, []) == [];
    }

    /** sd_select_mode_and_width, without the UHS modes. */
    method SdSelectModeAndWidth(cardCaps: set<Cap>, spi: bool, version10: bool) returns (err: int, ghost tried: seq<Choice>)
      requires fMin <= fMax
      modifies this
      ensures spi ==> err == 0 && ClockInRange() && selectedMode == SdLegacy && busWidth == 1
      ensures !spi ==> err in {0, -ENOTSUPP} && tried <= SdChoices(cardCaps * hostCaps, SD_MODES)
      ensures !spi && err == 0 ==> SdSettled(tried, cardCaps * hostCaps, version10)
      ensures !spi && err != 0 ==> tried == SdChoices(cardCaps * hostCaps, SD_MODES) && SdFellBack(tried)
      ensures !spi && faults == old(faults) ==>
        && (err == 0 <==> exists c :: IsSd(c) && Allowed(c, cardCaps * hostCaps))
        && forall c :: IsSd(c) && Allowed(c, cardCaps * hostCaps) ==> NoWorse(Choice(selectedMode, busWidth), c, legacySpeed)
      ensures |tried| <= faults - old(faults) + if err == 0 then 1 else 0
    {
      tried := [];
      if spi {
        busWidth := 1;
        SelectMode(SdLegacy);
        SetClock(tranSpeed, false);
        return 0, [];
      }
      var caps := cardCaps * hostCaps;
      hide SdChoices, SdWidthChoices;
      NoMode(caps);
      assert SD_MODES[0..] == SD_MODES;
      for i := 0 to |SD_MODES|
        invariant SdFellBack(tried) && |tried| <= faults - old(faults)
        invariant tried + SdChoices(caps, SD_MODES[i..]) == SdChoices(caps, SD_MODES)
      {
        var mwt := SD_MODES[i];
        NextSdMode(caps, SD_MODES, i);
        if Speed(mwt.mode) in caps {
          ghost var before := tried;
          err, tried := SdTryWidths(mwt, caps, version10, tried);
          Regroup(before, tried, SdWidthChoices(mwt, caps, SD_WIDTHS), SdChoices(caps, SD_MODES[i + 1..]));
          if err == 0 {
            if faults == old(faults) {
              SdFirstTaken(caps, err, tried, version10);
            }
            return;
          }
        }
      }
      if faults == old(faults) {
        SdFirstTaken(caps, -ENOTSUPP, tried, version10);
      }
      return -ENOTSUPP, tried;
    }

    /** What negotiation ends with, under any pattern of failures. */
    ghost predicate Negotiated(err: int, tried: seq<Choice>, caps: set<Cap>)
      reads this
    {
      && ClockInRange() && err in {0, -ENOTSUPP} && tried <= MmcChoices(caps, MmcModes())
      && (err == 0 ==> Settled(tried, caps))
      && (err != 0 ==> tried == MmcChoices(caps, MmcModes()) && FellBack(tried))
    }
  }

  lemma NextWidth(m: ModeWidths, caps: set<Cap>, ws: seq<BusWidthEntry>, j: nat)
    requires j < |ws|
    ensures WidthChoices(m, caps, ws[j..]) ==
      (if ws[j].ddr == IsDdr(m.mode) && ws[j].width in m.widths && Bits(ws[j].width) in caps then [Choice(m.mode, ws[j].width)] else []) +
      WidthChoices(m, caps, ws[j + 1..])
  {
    assert ws[j..][1..] == ws[j + 1..];
  }

  lemma NextMode(caps: set<Cap>, ms: seq<ModeWidths>, i: nat)
    requires i < |ms|
    ensures MmcChoices(caps, ms[i..]) ==
      (if Speed(ms[i].mode) in caps then WidthChoices(ms[i], caps, BusWidths()) else []) + MmcChoices(caps, ms[i + 1..])
  {
    assert ms[i..][1..] == ms[i + 1..];
  }

  lemma Shift(tried: seq<Choice>, c: Choice, rest: seq<Choice>)
    ensures tried + ([c] + rest) == (tried + [c]) + rest
  {
  }

  lemma Regroup(before: seq<Choice>, tried: seq<Choice>, group: seq<Choice>, more: seq<Choice>)
    requires tried <= before + group
    ensures tried <= before + (group + more) && (before + group) + more == before + (group + more)
  {
  }

  lemma NoMode(caps: set<Cap>)
    ensures MmcChoices(caps, []) == [] && SdChoices(caps, []) == []
  {
  }

  lemma NextSdWidth(m: ModeWidths, caps: set<Cap>, ws: seq<nat>, j: nat)
    requires j < |ws|
    ensures SdWidthChoices(m, caps, ws[j..]) ==
      (if ws[j] in m.widths && Bits(ws[j]) in caps then [Choice(m.mode, ws[j])] else []) + SdWidthChoices(m, caps, ws[j + 1..])
  {
    assert ws[j..][1..] == ws[j + 1..];
  }

  lemma NextSdMode(caps: set<Cap>, ms: seq<ModeWidths>, i: nat)
    requires i < |ms|
    ensures SdChoices(caps, ms[i..]) ==
      (if Speed(ms[i].mode) in caps then SdWidthChoices(ms[i], caps, SD_WIDTHS) else []) + SdChoices(caps, ms[i + 1..])
  {
    assert ms[i..][1..] == ms[i + 1..];
  }
}
