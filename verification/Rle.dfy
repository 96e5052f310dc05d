/**
  The run-length code of the console font: the encoder of src/fonts/mkbin.c and the decoder of
  src/vidconsole.c.  The encoder compares each byte with the one after it, the last one included,
  so what it does to an n-byte input depends on the byte after it.
 */
module Rle {
  import opened Bytes

  /** The longest packet. */
  const MAX_PACKET: nat := 0x7f

  // ------------------------------------------------------------------ the code

  function Repeat(b: byte, n: nat): (r: bytes)
    ensures |r| == n
  {
    seq(n, i => b)
  }

  /** Whole packets only. */
  predicate Packets(c: bytes) {
    c == [] ||
    if c[0] >= 128 then |c| >= 2 && Packets(c[2..])
    else |c| >= 1 + c[0] && Packets(c[1 + c[0]..])
  }

  /** What a list of packets stands for. */
  function Decoded(c: bytes): bytes
    requires Packets(c)
  {
    if c == [] then []
    else if c[0] >= 128 then Repeat(c[1], c[0] % 128) + Decoded(c[2..])
    else c[1..1 + c[0]] + Decoded(c[1 + c[0]..])
  }

  /** How many bytes from i on equal their successor, at most cap. */
  function Repeats(s: bytes, n: nat, i: nat, cap: nat): (r: nat)
    requires n < |s|
    ensures r <= cap && (i <= n ==> i + r <= n)
    decreases cap
  {
    if cap == 0 || i >= n || s[i] != s[i + 1] then 0 else 1 + Repeats(s, n, i + 1, cap - 1)
  }

  /** How many bytes from i on differ from their successor, at most cap. */
  function Literals(s: bytes, n: nat, i: nat, cap: nat): (r: nat)
    requires n < |s|
    ensures r <= cap && (i <= n ==> i + r <= n)
    decreases cap
  {
    if cap == 0 || i >= n || s[i] == s[i + 1] then 0 else 1 + Literals(s, n, i + 1, cap - 1)
  }

  /** The run packet, if any, for r bytes that equal their successor, and the byte after them. */
  function RunPacket(s: bytes, i: nat, r: nat): bytes
    requires i + r < |s| && r < MAX_PACKET
  {
    if r == 0 then [] else [128 + (r + 1), s[i + r]]
  }

  /** Where the literals after that packet start. */
  function AfterRun(i: nat, r: nat): nat {
    if r == 0 then i else i + r + 1
  }

  /** What one round of the encoder emits: a run packet if r > 0, and k literals, possibly none. */
  function Round(s: bytes, i: nat, r: nat, k: nat): (c: bytes)
    requires i + r < |s| && r < MAX_PACKET && k <= MAX_PACKET && AfterRun(i, r) + k <= |s|
    ensures |c| == (if r == 0 then 0 else 2) + 1 + k
  {
    RunPacket(s, i, r) + [k] + s[AfterRun(i, r)..AfterRun(i, r) + k]
  }

  /** The packets for s[i..n]; a run that reaches n while it is being counted gets none. */
  function Encoded(s: bytes, n: nat, i: nat): bytes
    requires n < |s| && i <= n
    decreases n - i
  {
    var r := Repeats(s, n, i, MAX_PACKET - 1);
    if i + r >= n then []
    else
      var j := AfterRun(i, r);
      var k := Literals(s, n, j, MAX_PACKET);
      Round(s, i, r, k) + Encoded(s, n, j + k)
  }

  // ------------------------------------------------------------------ the size of the code

  lemma LiteralsStop(s: bytes, n: nat, i: nat, cap: nat)
    requires n < |s| && i <= n
    ensures var k := Literals(s, n, i, cap); k == cap || i + k == n || s[i + k] == s[i + k + 1]
    ensures cap > 0 ==> (Literals(s, n, i, cap) > 0 <==> i < n && s[i] != s[i + 1])
    decreases cap
  {
  }

  /** At most three bytes for two, and one more when the input starts with a literal. */
  lemma {:induction false} SizeBound(s: bytes, n: nat, i: nat)
    requires n < |s| && i <= n
    ensures 2 * |Encoded(s, n, i)| <= 3 * (n - i) + if i < n && s[i] != s[i + 1] then 1 else 0
    decreases n - i
  {
    hide Repeats, Literals, Round;
    var r := Repeats(s, n, i, MAX_PACKET - 1);
    RepeatsStart(s, n, i, MAX_PACKET - 1);
    if i + r < n {
      var j := AfterRun(i, r);
      var k := Literals(s, n, j, MAX_PACKET);
      LiteralsStop(s, n, j, MAX_PACKET);
      SizeBound(s, n, j + k);
    }
  }

  lemma RepeatsStart(s: bytes, n: nat, i: nat, cap: nat)
    requires n < |s| && cap > 0
    ensures Repeats(s, n, i, cap) > 0 <==> i < n && s[i] == s[i + 1]
  {
  }

  // ------------------------------------------------------------------ decoding what was encoded

  /** How many bytes at the end of s[..n] equal s[n]. */
  function TrailingRun(s: bytes, n: nat): (r: nat)
    requires n < |s|
    ensures r <= n
  {
    if n == 0 || s[n - 1] != s[n] then 0 else 1 + TrailingRun(s, n - 1)
  }

  lemma {:induction false} TrailingRunIs(s: bytes, n: nat)
    requires n < |s|
    ensures var t := n - TrailingRun(s, n);
      (forall j :: t <= j < n ==> s[j] == s[j + 1]) && (t > 0 ==> s[t - 1] != s[t])
  {
    if n > 0 && s[n - 1] == s[n] {
      TrailingRunIs(s, n - 1);
    }
  }

  /** Counting stops at the first byte that differs from its successor, and only there or at a limit. */
  lemma {:induction false} RepeatsTo(s: bytes, n: nat, i: nat, cap: nat, r: nat)
    requires n < |s| && i + r <= n && r <= cap
    requires forall j :: i <= j < i + r ==> s[j] == s[j + 1]
    requires r == cap || i + r == n || s[i + r] != s[i + r + 1]
    ensures Repeats(s, n, i, cap) == r
    decreases r
  {
    if r > 0 {
      assert s[i] == s[i + 1];
      RepeatsTo(s, n, i + 1, cap - 1, r - 1);
    }
  }

  lemma {:induction false} RepeatsEqual(s: bytes, n: nat, i: nat, cap: nat)
    requires n < |s| && i <= n
    ensures var r := Repeats(s, n, i, cap); forall j :: i <= j < i + r ==> s[j] == s[j + 1]
    decreases cap
  {
    if cap > 0 && i < n && s[i] == s[i + 1] {
      RepeatsEqual(s, n, i + 1, cap - 1);
    }
  }

  lemma {:induction false} LiteralsDiffer(s: bytes, n: nat, i: nat, cap: nat)
    requires n < |s| && i <= n
    ensures var k := Literals(s, n, i, cap); forall j :: i <= j < i + k ==> s[j] != s[j + 1]
    decreases cap
  {
    if cap > 0 && i < n && s[i] != s[i + 1] {
      LiteralsDiffer(s, n, i + 1, cap - 1);
    }
  }

  lemma {:induction false} AllEqual(s: bytes, i: nat, r: nat)
    requires i + r < |s| && forall j :: i <= j < i + r ==> s[j] == s[j + 1]
    ensures s[i..i + r + 1] == Repeat(s[i + r], r + 1)
    decreases r
  {
    if r > 0 {
      AllEqual(s, i + 1, r - 1);
      assert s[i..i + r + 1] == [s[i]] + s[i + 1..i + r + 1];
      assert s[i + 1] == s[i + 1..i + r + 1][0];
    }
  }

  /** One step of the definitions. */
  lemma Unfold(c: bytes)
    requires c != []
    ensures c[0] >= 128 ==> Packets(c) == (|c| >= 2 && Packets(c[2..]))
    ensures c[0] >= 128 && Packets(c) ==> Decoded(c) == Repeat(c[1], c[0] % 128) + Decoded(c[2..])
    ensures c[0] < 128 ==> Packets(c) == (|c| >= 1 + c[0] && Packets(c[1 + c[0]..]))
    ensures c[0] < 128 && Packets(c) ==> Decoded(c) == c[1..1 + c[0]] + Decoded(c[1 + c[0]..])
  {
    hide Repeat;
  }

  lemma LiteralsDecoded(v: bytes, rest: bytes)
    requires |v| <= MAX_PACKET && Packets(rest)
    ensures var c := [|v|] + v + rest; Packets(c) && Decoded(c) == v + Decoded(rest)
  {
    hide Packets, Decoded;
    var c := [|v|] + v + rest;
    Unfold(c);
    assert c[0] == |v| && c[1..1 + |v|] == v && c[1 + |v|..] == rest;
  }

  lemma RunDecoded(b: byte, n: nat, rest: bytes)
    requires n <= MAX_PACKET && Packets(rest)
    ensures var c := [128 + n, b] + rest; Packets(c) && Decoded(c) == Repeat(b, n) + Decoded(rest)
  {
    hide Packets, Decoded, Repeat;
    var c := [128 + n, b] + rest;
    Unfold(c);
    assert c[2..] == rest && c[0] == 128 + n && c[1] == b;
  }

  /** Decoding one round of packets. */
  lemma RoundDecoded(s: bytes, i: nat, r: nat, k: nat, rest: bytes)
    requires i + r < |s| && r < MAX_PACKET && k <= MAX_PACKET && AfterRun(i, r) + k <= |s| && Packets(rest)
    requires forall j :: i <= j < i + r ==> s[j] == s[j + 1]
    ensures Packets(Round(s, i, r, k) + rest)
    ensures Decoded(Round(s, i, r, k) + rest) == s[i..AfterRun(i, r) + k] + Decoded(rest)
  {
    hide Packets, Decoded, Repeat;
    var j := AfterRun(i, r);
    var v := s[j..j + k];
    LiteralsDecoded(v, rest);
    if r == 0 {
      assert Round(s, i, r, k) + rest == [|v|] + v + rest;
    } else {
      assert Round(s, i, r, k) + rest == [128 + (r + 1), s[i + r]] + ([|v|] + v + rest);
      RunDecoded(s[i + r], r + 1, [|v|] + v + rest);
      AllEqual(s, i, r);
      Assoc(s[i..j], v, Decoded(rest));
      Joined(s, i, j, j + k);
    }
  }

  /** A place a packet may start at: not inside the trailing run, or a whole number of longest packets into it. */
  predicate Boundary(s: bytes, n: nat, i: nat)
    requires n < |s|
  {
    var t := n - TrailingRun(s, n);
    i <= n && (i <= t || (i - t) % MAX_PACKET == 0)
  }

  /** A round that starts before the trailing run ends before it. */
  lemma RoundBefore(s: bytes, n: nat, i: nat)
    requires n < |s| && i < n - TrailingRun(s, n)
    ensures i + Repeats(s, n, i, MAX_PACKET - 1) < n - TrailingRun(s, n)
    ensures var j := AfterRun(i, Repeats(s, n, i, MAX_PACKET - 1)); j + Literals(s, n, j, MAX_PACKET) <= n - TrailingRun(s, n)
  {
    hide TrailingRun, Repeats, Literals;
    var t, r := n - TrailingRun(s, n), Repeats(s, n, i, MAX_PACKET - 1);
    TrailingRunIs(s, n);
    RepeatsEqual(s, n, i, MAX_PACKET - 1);
    assert i + r < t by {
      assert s[t - 1] != s[t - 1 + 1];
    }
    LiteralsDiffer(s, n, AfterRun(i, r), MAX_PACKET);
    assert t < n ==> s[t] == s[t + 1];
  }

  /** A round that starts d bytes before the end of the trailing run takes a longest packet, or is the last. */
  lemma RoundInside(s: bytes, n: nat, i: nat)
    requires n < |s| && n - TrailingRun(s, n) <= i <= n
    ensures var r := Repeats(s, n, i, MAX_PACKET - 1);
      if n - i < MAX_PACKET then i + r == n else r == MAX_PACKET - 1 && Literals(s, n, i + MAX_PACKET, MAX_PACKET) == 0
  {
    hide TrailingRun, Repeats;
    TrailingRunIs(s, n);
    RepeatsTo(s, n, i, MAX_PACKET - 1, if n - i < MAX_PACKET then n - i else MAX_PACKET - 1);
  }

  /** Every round of the encoder ends at such a place, unless it is the last. */
  lemma BoundaryStep(s: bytes, n: nat, i: nat)
    requires n < |s| && Boundary(s, n, i)
    ensures var r := Repeats(s, n, i, MAX_PACKET - 1); if i + r >= n then n - i == TrailingRun(s, n) % MAX_PACKET
      else var j := AfterRun(i, r); Boundary(s, n, j + Literals(s, n, j, MAX_PACKET))
  {
    hide TrailingRun, Repeats, Literals;
    if i < n - TrailingRun(s, n) {
      RoundBefore(s, n, i);
    } else {
      RoundInside(s, n, i);
      LeftOver(n - i, TrailingRun(s, n));
    }
  }

  /** A round takes at least one byte. */
  lemma Progress(s: bytes, n: nat, i: nat)
    requires n < |s| && i <= n
    ensures var r := Repeats(s, n, i, MAX_PACKET - 1); i + r < n ==>
      var j := AfterRun(i, r);
      i + r < j + Literals(s, n, j, MAX_PACKET) <= n
  {
    hide Repeats, Literals;
    var r := Repeats(s, n, i, MAX_PACKET - 1);
    RepeatsStart(s, n, i, MAX_PACKET - 1);
    if i + r < n {
      LiteralsStop(s, n, AfterRun(i, r), MAX_PACKET);
    }
  }

  /** From such a place everything is decoded but what the trailing run has left over. */
  lemma {:induction false} DecodedFrom(s: bytes, n: nat, i: nat)
    requires n < |s| && Boundary(s, n, i)
    ensures Packets(Encoded(s, n, i))
    ensures i <= n - TrailingRun(s, n) % MAX_PACKET && Decoded(Encoded(s, n, i)) == s[i..n - TrailingRun(s, n) % MAX_PACKET]
    decreases n - i
  {
    hide TrailingRun, Repeats, Literals, Decoded, Packets, Boundary, Round, AfterRun;
    var r := Repeats(s, n, i, MAX_PACKET - 1);
    InRange(s, n, i);
    BoundaryStep(s, n, i);
    if i + r < n {
      var j := AfterRun(i, r);
      var k := Literals(s, n, j, MAX_PACKET);
      Progress(s, n, i);
      DecodedFrom(s, n, j + k);
      RepeatsEqual(s, n, i, MAX_PACKET - 1);
      RoundDecoded(s, i, r, k, Encoded(s, n, j + k));
      Joined(s, i, j + k, n - TrailingRun(s, n) % MAX_PACKET);
    } else {
      NoPackets();
    }
  }

  lemma InRange(s: bytes, n: nat, i: nat)
    requires n < |s| && Boundary(s, n, i)
    ensures i <= n
  {
  }

  lemma NoPackets()
    ensures Packets([]) && Decoded([]) == []
  {
  }

  lemma Joined(s: bytes, a: nat, b: nat, c: nat)
    requires a <= b <= c <= |s|
    ensures s[a..b] + s[b..c] == s[a..c]
  {
  }

  /** d bytes are left of a run of l, whole packets having been cut off. */
  lemma LeftOver(d: nat, l: nat)
    requires d <= l && (l - d) % MAX_PACKET == 0
    ensures if d < MAX_PACKET then l % MAX_PACKET == d else (l - d + MAX_PACKET) % MAX_PACKET == 0
    ensures l % MAX_PACKET <= d
  {
  }

  /** unrle(rle(s)): the trailing run loses its length modulo the longest packet, and nothing else is lost. */
  lemma RoundTrip(s: bytes, n: nat)
    requires n < |s|
    ensures Packets(Encoded(s, n, 0)) && Decoded(Encoded(s, n, 0)) == s[..n - TrailingRun(s, n) % MAX_PACKET]
  {
    DecodedFrom(s, n, 0);
  }

  /** The code is lossless exactly when that remainder is 0; in particular when the last byte differs from the next. */
  lemma Lossless(s: bytes, n: nat)
    requires n < |s|
    ensures Packets(Encoded(s, n, 0))
    ensures Decoded(Encoded(s, n, 0)) == s[..n] <==> TrailingRun(s, n) % MAX_PACKET == 0
    ensures n > 0 && s[n - 1] != s[n] ==> Decoded(Encoded(s, n, 0)) == s[..n]
  {
    RoundTrip(s, n);
    var c := n - TrailingRun(s, n) % MAX_PACKET;
    assert |s[..c]| == c && |s[..n]| == n;
  }

  /** One zero byte followed by another in memory is encoded as nothing. */
  lemma Loss()
    ensures Encoded([0, 0, 1], 1, 0) == [] && Packets([]) && Decoded([]) != [0, 0, 1][..1]
  {
    RepeatsTo([0, 0, 1], 1, 0, MAX_PACKET - 1, 1);
  }

  // ------------------------------------------------------------------ mkbin.c

  /** The inner loop of both encoders: how far the next literal packet goes. */
  method ScanLiterals(s: bytes, sizein: nat, ptmp: nat) returns (size: nat)
    requires sizein + 2 <= |s| && ptmp <= sizein
    ensures size == Literals(s, sizein, ptmp, MAX_PACKET)
  {
    hide Literals;
    size := 0;
    var pin := ptmp;
    while s[pin] != s[pin + 1]
      invariant pin == ptmp + size <= sizein && size <= MAX_PACKET
      invariant Literals(s, sizein, ptmp, MAX_PACKET) == size + Literals(s, sizein, pin, MAX_PACKET - size)
      decreases sizein - pin
    {
      LiteralsStep(s, sizein, pin, MAX_PACKET - size);
      if pin >= sizein || size > 0x7f - 1 { break; }
      size := size + 1;
      pin := pin + 1;
    }
    LiteralsStep(s, sizein, pin, MAX_PACKET - size);
  }

  /** enc_size */
  method EncSize(s: bytes, sizein: nat) returns (sizeout: nat)
    requires sizein + 2 <= |s|
    ensures sizeout == |Encoded(s, sizein, 0)|
  {
    hide Encoded, Literals, Repeats, Round;
    var pin, packetSize := 0, 0;
    sizeout := 0;
    while pin < sizein
      invariant packetSize <= pin <= sizein && packetSize < MAX_PACKET
      invariant forall j :: pin - packetSize <= j < pin ==> s[j] == s[j + 1]
      invariant |Encoded(s, sizein, 0)| == sizeout + |Encoded(s, sizein, pin - packetSize)|
      decreases sizein - pin, packetSize
    {
      if s[pin] == s[pin + 1] && packetSize < 0x7f - 1 {
        packetSize := packetSize + 1;
        pin := pin + 1;
      } else {
        RepeatsTo(s, sizein, pin - packetSize, MAX_PACKET - 1, packetSize);
        EncodedRound(s, sizein, pin - packetSize);
        if packetSize > 0 {
          sizeout := sizeout + 2;
          pin := pin + 1;
        }
        packetSize := ScanLiterals(s, sizein, pin);
        pin := pin + packetSize;
        sizeout := sizeout + packetSize + 1;
        packetSize := 0;
      }
    }
    RepeatsTo(s, sizein, pin - packetSize, MAX_PACKET - 1, packetSize);
    EncodedRound(s, sizein, pin - packetSize);
  }

  lemma LiteralsStep(s: bytes, n: nat, i: nat, cap: nat)
    requires n < |s| && i <= n
    ensures Literals(s, n, i, cap) == if cap == 0 || i >= n || s[i] == s[i + 1] then 0 else 1 + Literals(s, n, i + 1, cap - 1)
  {
  }

  /** One round of the encoder's outer loop. */
  lemma EncodedRound(s: bytes, n: nat, i: nat)
    requires n < |s| && i <= n
    ensures var r := Repeats(s, n, i, MAX_PACKET - 1);
      if i + r >= n then Encoded(s, n, i) == []
      else var j := AfterRun(i, r); var k := Literals(s, n, j, MAX_PACKET);
        Encoded(s, n, i) == Round(s, i, r, k) + Encoded(s, n, j + k)
  {
  }

  /** rle: out never overflows if it holds three bytes for two and one more. */
  method Encode(s: bytes, out: array<byte>, sizein: nat) returns (len: nat)
    requires sizein + 2 <= |s| && 3 * sizein + 1 <= 2 * out.Length
    modifies out
    ensures len <= out.Length && out[..len] == Encoded(s, sizein, 0) && out[..][len..] == old(out[..])[len..]
    ensures 2 * len <= 3 * sizein + 1
  {
    hide Encoded, Literals, Repeats, Round, RunPacket, AfterRun;
    SizeBound(s, sizein, 0);
    ghost var all := Encoded(s, sizein, 0);
    var pin, packetSize := 0, 0;
    len := 0;
    assert all == [] + all && out[..0] == [];
    while pin < sizein
      invariant packetSize <= pin <= sizein && packetSize < MAX_PACKET
      invariant forall j :: pin - packetSize <= j < pin ==> s[j] == s[j + 1]
      invariant len <= |all| && all == out[..len] + Encoded(s, sizein, pin - packetSize)
      invariant out[..][len..] == old(out[..])[len..]
      decreases sizein - pin, packetSize
    {
      if s[pin] == s[pin + 1] && packetSize < 0x7f - 1 {
        packetSize := packetSize + 1;
        pin := pin + 1;
      } else {
        RoundNext(s, sizein, pin, packetSize, out[..len], all);
        ghost var was, len0 := out[..], len;
        pin, len := PutRound(s, out, sizein, pin, len, packetSize);
        TailKept(old(out[..]), was, out[..], len0, len);
        packetSize := 0;
      }
    }
    RepeatsTo(s, sizein, pin - packetSize, MAX_PACKET - 1, packetSize);
    EncodedRound(s, sizein, pin - packetSize);
  }

  /** What the next round adds to the packets so far. */
  lemma RoundNext(s: bytes, n: nat, pin: nat, r: nat, was: bytes, all: bytes)
    requires r <= pin < n < |s| && r < MAX_PACKET && (r == MAX_PACKET - 1 || s[pin] != s[pin + 1])
    requires forall j :: pin - r <= j < pin ==> s[j] == s[j + 1]
    requires all == was + Encoded(s, n, pin - r)
    ensures var j := AfterRun(pin - r, r); var k := Literals(s, n, j, MAX_PACKET);
      pin < j + k <= n && all == (was + Round(s, pin - r, r, k)) + Encoded(s, n, j + k)
  {
    hide Encoded, Literals, Repeats, Round;
    var i := pin - r;
    RepeatsTo(s, n, i, MAX_PACKET - 1, r);
    EncodedRound(s, n, i);
    Progress(s, n, i);
    var k := Literals(s, n, AfterRun(i, r), MAX_PACKET);
    Assoc(was, Round(s, i, r, k), Encoded(s, n, AfterRun(i, r) + k));
  }

  /** The else branch of rle: the pending run packet, then the literals after it. */
  method PutRound(s: bytes, out: array<byte>, sizein: nat, pin0: nat, at: nat, r: nat) returns (pin: nat, pout: nat)
    requires sizein + 2 <= |s| && r <= pin0 < sizein && r < MAX_PACKET
    requires at + |Round(s, pin0 - r, r, Literals(s, sizein, AfterRun(pin0 - r, r), MAX_PACKET))| <= out.Length
    modifies out
    ensures var k := Literals(s, sizein, AfterRun(pin0 - r, r), MAX_PACKET);
      && pin == AfterRun(pin0 - r, r) + k && pout == at + |Round(s, pin0 - r, r, k)|
      && out[..pout] == old(out[..at]) + Round(s, pin0 - r, r, k) && out[..][pout..] == old(out[..])[pout..]
  {
    hide Literals, Round;
    ghost var was := out[..at];
    pin, pout := pin0, at;
    if r > 0 {
      PutRun(out, pout, r, s[pin]);
      pout, pin := pout + 2, pin + 1;
    }
    ghost var run := out[..pout];
    assert run == was + RunPacket(s, pin0 - r, r);
    var ptmp := pin;
    var size := ScanLiterals(s, sizein, pin);
    pin := pin + size;
    pout := CopyPacket(s, ptmp, size, out, pout);
    RoundPut(s, pin0 - r, r, size, was, run, out[..pout]);
  }

  lemma RoundPut(s: bytes, i: nat, r: nat, k: nat, was: bytes, run: bytes, now: bytes)
    requires i + r < |s| && r < MAX_PACKET && k <= MAX_PACKET && AfterRun(i, r) + k <= |s|
    requires run == was + RunPacket(s, i, r) && now == run + [k] + s[AfterRun(i, r)..AfterRun(i, r) + k]
    ensures now == was + Round(s, i, r, k)
  {
  }

  /** The two bytes of a run packet. */
  method PutRun(out: array<byte>, at: nat, packetSize: nat, b: byte)
    requires at + 2 <= out.Length && packetSize < MAX_PACKET
    modifies out
    ensures out[..at + 2] == old(out[..at]) + [128 + (packetSize + 1), b] && out[..][at + 2..] == old(out[..])[at + 2..]
  {
    out[at] := 128 + (packetSize + 1) % 128;
    out[at + 1] := b;
  }

  /** The header and the bytes of a literal packet. */
  method CopyPacket(s: bytes, ptmp: nat, n: nat, out: array<byte>, at: nat) returns (pout: nat)
    requires ptmp + n <= |s| && n <= MAX_PACKET && at + 1 + n <= out.Length
    modifies out
    ensures pout == at + 1 + n && out[..pout] == old(out[..at]) + [n] + s[ptmp..ptmp + n] && out[..][pout..] == old(out[..])[pout..]
  {
    out[at] := n % 128;
    pout := CopyBytes(s, ptmp, n, out, at + 1);
  }

  method CopyBytes(s: bytes, from: nat, n: nat, out: array<byte>, at: nat) returns (pout: nat)
    requires from + n <= |s| && at + n <= out.Length
    modifies out
    ensures pout == at + n && out[..pout] == old(out[..at]) + s[from..from + n] && out[..][pout..] == old(out[..])[pout..]
  {
    pout := at;
    for i := 0 to n
      invariant pout == at + i
      invariant out[..pout] == old(out[..at]) + s[from..from + i] && out[..][pout..] == old(out[..])[pout..]
    {
      out[pout] := s[from + i];
      pout := pout + 1;
    }
  }

  // ------------------------------------------------------------------ vidconsole.c

  method FillBytes(b: byte, n: nat, out: array<byte>, at: nat) returns (pout: nat)
    requires at + n <= out.Length
    modifies out
    ensures pout == at + n && out[..pout] == old(out[..at]) + Repeat(b, n) && out[..][pout..] == old(out[..])[pout..]
  {
    pout := at;
    for i := 0 to n
      invariant pout == at + i
      invariant out[..pout] == old(out[..at]) + Repeat(b, i) && out[..][pout..] == old(out[..])[pout..]
    {
      out[pout] := b;
      pout := pout + 1;
    }
  }

  lemma PacketAt(c: bytes, pin: nat)
    requires pin < |c| && Packets(c[pin..])
    ensures var n := c[pin] % 128; if c[pin] >= 128 then
      pin + 2 <= |c| && Packets(c[pin + 2..]) && Decoded(c[pin..]) == Repeat(c[pin + 1], n) + Decoded(c[pin + 2..])
      else pin + 1 + n <= |c| && Packets(c[pin + 1 + n..]) && Decoded(c[pin..]) == c[pin + 1..pin + 1 + n] + Decoded(c[pin + 1 + n..])
  {
    hide Packets, Decoded, Repeat;
    Unfold(c[pin..]);
    var rest, n := c[pin..], c[pin] % 128;
    assert rest[0] == c[pin];
    if c[pin] >= 128 {
      assert rest[1] == c[pin + 1];
      DropDrop(c, pin, 2);
    } else {
      DropDrop(c, pin, 1 + n);
      assert rest[1..1 + n] == c[pin + 1..pin + 1 + n];
    }
  }

  lemma DropDrop(c: bytes, a: nat, b: nat)
    requires a + b <= |c|
    ensures c[a..][b..] == c[a + b..]
  {
  }

  /** Bytes left alone by two writers in turn. */
  lemma TailKept(a: bytes, b: bytes, c: bytes, i: nat, j: nat)
    requires i <= j <= |a| == |b| == |c| && b[i..] == a[i..] && c[j..] == b[j..]
    ensures c[j..] == a[j..]
  {
    DropDrop(a, i, j - i);
    DropDrop(b, i, j - i);
  }

  /** unrle: exactly the decoded bytes are written. */
  method Unrle(out: array<byte>, c: bytes) returns (end: nat)
    requires Packets(c) && |Decoded(c)| <= out.Length
    modifies out
    ensures end == |Decoded(c)| && out[..end] == Decoded(c) && out[..][end..] == old(out[..])[end..]
  {
    hide Packets, Decoded, Repeat;
    NoPackets();
    var pin := 0;
    end := 0;
    assert c[0..] == c && out[..0] == [];
    while pin < |c|
      invariant pin <= |c| && Packets(c[pin..]) && end <= |Decoded(c)|
      invariant Decoded(c) == out[..end] + Decoded(c[pin..])
      invariant out[..][end..] == old(out[..])[end..]
      decreases |c| - pin
    {
      PacketAt(c, pin);
      ghost var was, end0, all := out[..end], end, out[..];
      var header := c[pin];
      pin := pin + 1;
      var size := header % 128;
      if header >= 128 {
        Assoc(was, Repeat(c[pin], size), Decoded(c[pin + 1..]));
        end := FillBytes(c[pin], size, out, end);
        pin := pin + 1;
      } else {
        Assoc(was, c[pin..pin + size], Decoded(c[pin + size..]));
        end := CopyBytes(c, pin, size, out, end);
        pin := pin + size;
      }
      TailKept(old(out[..]), all, out[..], end0, end);
    }
    assert c[pin..] == [];
  }
}
