/**
  Bytes, big-endian 32-bit words and the copying routines of lib.c.
  A C buffer is a sequence (or an array) of bytes; a `char *` is an index into it.
 */
module Bytes {

  type byte = x: int | 0 <= x < 256
  type bytes = seq<byte>

  const TWO32: int := 0x1_0000_0000
  const TWO64: int := 0x1_0000_0000_0000_0000

  /** cpu_to_fdt32: the four bytes of a 32-bit word, most significant first. */
  function BE32(x: nat): (r: bytes)
    ensures |r| == 4
  {
    [x / 256 / 256 / 256 % 256, x / 256 / 256 % 256, x / 256 % 256, x % 256]
  }

  /** fdt32_to_cpu of the word stored at index i. */
  function U32(b: bytes, i: nat): (r: nat)
    requires i + 4 <= |b|
    ensures r < TWO32
  {
    0x100_0000 * (b[i] as int) + 0x1_0000 * (b[i + 1] as int) + 0x100 * (b[i + 2] as int) + b[i + 3]
  }

  lemma BE32RoundTrip(x: nat)
    requires x < TWO32
    ensures U32(BE32(x), 0) == x
  {
    var q1 := x / 256;
    var q2 := q1 / 256;
    var q3 := q2 / 256;
    assert q3 < 256;
  }

  /** Reading a word depends only on its four bytes. */
  lemma U32Of(b: bytes, i: nat, x: nat)
    requires x < TWO32 && Occurs(b, i, BE32(x))
    ensures i + 4 <= |b| && U32(b, i) == x
  {
    BE32RoundTrip(x);
    var w := b[i..i + 4];
    assert w[0] == b[i] && w[1] == b[i + 1] && w[2] == b[i + 2] && w[3] == b[i + 3];
  }

  // Facts about concatenation, stated once so that larger proofs can rewrite with them.

  lemma Assoc<X>(x: seq<X>, y: seq<X>, z: seq<X>)
    ensures x + (y + z) == (x + y) + z
  {
  }

  lemma CatInj<X>(a: seq<X>, x: seq<X>, b: seq<X>, y: seq<X>)
    requires |a| == |b| && a + x == b + y
    ensures a == b && x == y
  {
    assert a == (a + x)[..|a|] && b == (b + y)[..|a|];
    assert x == (a + x)[|a|..] && y == (b + y)[|a|..];
  }

  /** A slice of the middle part of a concatenation. */
  lemma Middle<X>(a: seq<X>, b: seq<X>, c: seq<X>)
    ensures (a + b + c)[|a|..|a| + |b|] == b
    ensures (a + b + c)[..|a|] == a && (a + b + c)[|a| + |b|..] == c
  {
  }

  /** u is stored in s at index at. */
  ghost predicate Occurs<X>(s: seq<X>, at: nat, u: seq<X>) {
    at + |u| <= |s| && s[at..at + |u|] == u
  }

  lemma OccursAt<X>(s: seq<X>, at: nat, u: seq<X>, k: nat)
    requires Occurs(s, at, u) && k < |u|
    ensures s[at + k] == u[k]
  {
    assert s[at..at + |u|][k] == u[k];
  }

  lemma OccursCat<X>(s: seq<X>, at: nat, a: seq<X>, b: seq<X>)
    ensures Occurs(s, at, a + b) <==> Occurs(s, at, a) && Occurs(s, at + |a|, b)
  {
    if at + |a| + |b| <= |s| {
      var w := s[at..at + |a| + |b|];
      assert w == s[at..at + |a|] + s[at + |a|..at + |a| + |b|];
      if w == a + b {
        CatInj(s[at..at + |a|], s[at + |a|..at + |a| + |b|], a, b);
      }
    }
  }

  lemma OccursIn<X>(s: seq<X>, at: nat, e: seq<X>, k: nat, u: seq<X>)
    requires Occurs(s, at, e) && Occurs(e, k, u)
    ensures Occurs(s, at + k, u)
  {
    assert e == e[..k] + u + e[k + |u|..];
    OccursCat(s, at, e[..k] + u, e[k + |u|..]);
    OccursCat(s, at, e[..k], u);
  }

  /** Storing within a slice is storing in the whole. */
  lemma OccursSlice<X>(s: seq<X>, a: nat, n: nat, k: nat, u: seq<X>)
    requires a + n <= |s| && k + |u| <= n
    ensures Occurs(s, a + k, u) <==> Occurs(s[a..a + n], k, u)
  {
    assert s[a..a + n] == s[a..a + k] + s[a + k..a + k + |u|] + s[a + k + |u|..a + n];
    Middle(s[a..a + k], s[a + k..a + k + |u|], s[a + k + |u|..a + n]);
  }

  /** FDT_TAGALIGN: x rounded up to a multiple of the tag size. */
  function TagAlign(x: int): (r: int)
    ensures x <= r < x + 4 && r % 4 == 0
  {
    (x + 3) / 4 * 4
  }

  /** No NUL byte: what a C string may contain. */
  predicate NoNul(s: bytes) {
    forall i :: 0 <= i < |s| ==> s[i] != 0
  }

  /** The bytes of m after copying the n bytes at src to dst, overlapping or not. */
  function Moved(m: bytes, dst: nat, src: nat, n: nat): (r: bytes)
    requires dst + n <= |m| && src + n <= |m|
    ensures |r| == |m|
  {
    m[..dst] + m[src..src + n] + m[dst + n..]
  }

  /** The bytes of m after storing v at index at. */
  function Written(m: bytes, at: nat, v: bytes): (r: bytes)
    requires at + |v| <= |m|
    ensures |r| == |m|
  {
    m[..at] + v + m[at + |v|..]
  }

  lemma MovedIs(m: bytes, w: bytes, dst: nat, src: nat, n: nat)
    requires |w| == |m| && dst + n <= |m| && src + n <= |m|
    requires forall k {:trigger w[k]} :: 0 <= k < |m| ==> w[k] == (if dst <= k < dst + n then m[src + k - dst] else m[k])
    ensures w == Moved(m, dst, src, n)
  {
  }

  /** memcpy: a forward byte loop. */
  method MemCpy(mem: array<byte>, dst: nat, src: nat, n: nat)
    requires dst + n <= mem.Length && src + n <= mem.Length
    requires dst <= src || src + n <= dst
    modifies mem
    ensures mem[..] == Moved(old(mem[..]), dst, src, n)
  {
    ghost var m := mem[..];
    for i := 0 to n
      invariant forall k {:trigger mem[k]} :: 0 <= k < mem.Length ==>
        mem[k] == (if dst <= k < dst + i then m[src + k - dst] else m[k])
    {
      mem[dst + i] := mem[src + i];
    }
    MovedIs(m, mem[..], dst, src, n);
  }

  /**
    memmove: the overlap test is an unsigned comparison of addresses modulo 2^64;
    whatever it decides, all three ways copy the source as it was before the call.
   */
  method MemMove(mem: array<byte>, dst: nat, src: nat, n: nat)
    requires dst + n <= mem.Length && src + n <= mem.Length
    requires dst + n < 0x8000_0000 && src + n < 0x8000_0000
    modifies mem
    ensures mem[..] == Moved(old(mem[..]), dst, src, n)
  {
    ghost var m := mem[..];
    if dst == src {
      MovedIs(m, mem[..], dst, src, n);
      return;
    }
    if (src - dst - n) % TWO64 <= (-2 * n) % TWO64 {
      MemCpy(mem, dst, src, n);
      return;
    }
    if dst < src {
      var i := 0;
      while i < n
        invariant i <= n
        invariant forall k {:trigger mem[k]} :: 0 <= k < mem.Length ==>
          mem[k] == (if dst <= k < dst + i then m[src + k - dst] else m[k])
      {
        mem[dst + i] := mem[src + i];
        i := i + 1;
      }
    } else {
      var i := n;
      while i > 0
        invariant 0 <= i <= n
        invariant forall k {:trigger mem[k]} :: 0 <= k < mem.Length ==>
          mem[k] == (if dst + i <= k < dst + n then m[src + k - dst] else m[k])
      {
        i := i - 1;
        mem[dst + i] := mem[src + i];
      }
    }
    MovedIs(m, mem[..], dst, src, n);
  }

  /** memcpy from a caller's buffer v into mem. */
  method Store(mem: array<byte>, at: nat, v: bytes)
    requires at + |v| <= mem.Length
    modifies mem
    ensures mem[..] == Written(old(mem[..]), at, v)
  {
    ghost var m := mem[..];
    for i := 0 to |v|
      invariant forall k {:trigger mem[k]} :: 0 <= k < mem.Length ==>
        mem[k] == if at <= k < at + i then v[k - at] else m[k]
    {
      mem[at + i] := v[i];
    }
    assert mem[..] == Written(m, at, v);
  }

  /** *p = cpu_to_fdt32(x) */
  method StoreWord(mem: array<byte>, at: nat, x: nat)
    requires at + 4 <= mem.Length
    modifies mem
    ensures mem[..] == Written(old(mem[..]), at, BE32(x))
  {
    Store(mem, at, BE32(x));
  }

  function Zeros(n: nat): (r: bytes)
    ensures |r| == n && forall i :: 0 <= i < n ==> r[i] == 0
  {
    seq(n, i => 0)
  }

  /** memset(p, 0, n) */
  method MemZero(mem: array<byte>, at: nat, n: nat)
    requires at + n <= mem.Length
    modifies mem
    ensures mem[..] == Written(old(mem[..]), at, Zeros(n))
  {
    ghost var m := mem[..];
    var k := n;
    var s := at;
    while k > 0
      invariant 0 <= k <= n && s == at + (n - k)
      invariant forall i {:trigger mem[i]} :: 0 <= i < mem.Length ==> mem[i] == (if at <= i < s then 0 else m[i])
    {
      mem[s] := 0;
      k, s := k - 1, s + 1;
    }
    assert mem[..] == Written(m, at, Zeros(n));
  }

  // ------------------------------------------------------------------ bytes that survive a copy

  lemma WrittenKeeps(m: bytes, at: nat, v: bytes, x: nat, u: bytes)
    requires at + |v| <= |m| && Occurs(m, x, u) && (x + |u| <= at || at + |v| <= x)
    ensures Occurs(Written(m, at, v), x, u)
  {
    var w := Written(m, at, v);
    assert w[x..x + |u|] == m[x..x + |u|];
  }

  lemma WrittenHolds(m: bytes, at: nat, v: bytes)
    requires at + |v| <= |m|
    ensures Occurs(Written(m, at, v), at, v)
  {
    Middle(m[..at], v, m[at + |v|..]);
  }

  /** Before the destination of a move nothing changes. */
  lemma MovedBefore(m: bytes, dst: nat, src: nat, n: nat, x: nat, u: bytes)
    requires dst + n <= |m| && src + n <= |m| && Occurs(m, x, u) && x + |u| <= dst
    ensures Occurs(Moved(m, dst, src, n), x, u)
  {
    var w := Moved(m, dst, src, n);
    assert w[x..x + |u|] == m[x..x + |u|];
  }

  /** What is moved arrives. */
  lemma MovedTo(m: bytes, dst: nat, src: nat, n: nat, x: nat, u: bytes)
    requires dst + n <= |m| && src + n <= |m| && src <= x && x + |u| <= src + n && Occurs(m, x, u)
    ensures Occurs(Moved(m, dst, src, n), dst + (x - src), u)
  {
    var w, a, b := Moved(m, dst, src, n), m[src..x], m[x + |u|..src + n];
    assert m[src..src + n] == a + u + b;
    Middle(m[..dst], a + u + b, m[dst + n..]);
    OccursCat(w, dst, a + u, b);
    OccursCat(w, dst, a, u);
  }

  /** Beyond the destination of a move nothing changes. */
  lemma MovedPast(m: bytes, dst: nat, src: nat, n: nat, x: nat, u: bytes)
    requires dst + n <= |m| && src + n <= |m| && Occurs(m, x, u) && dst + n <= x
    ensures Occurs(Moved(m, dst, src, n), x, u)
  {
    var w := Moved(m, dst, src, n);
    assert w[x..x + |u|] == m[x..x + |u|];
  }

  /** Bytes apart from the target of a move stay. */
  lemma MovedApart(m: bytes, dst: nat, src: nat, n: nat, x: nat, u: bytes)
    requires dst + n <= |m| && src + n <= |m| && Occurs(m, x, u) && (x + |u| <= dst || dst + n <= x)
    ensures Occurs(Moved(m, dst, src, n), x, u)
  {
    if x + |u| <= dst {
      MovedBefore(m, dst, src, n, x, u);
    } else {
      MovedPast(m, dst, src, n, x, u);
    }
  }

  lemma WrittenTwice(m: bytes, at: nat, a: bytes, b: bytes)
    requires at + |a| + |b| <= |m|
    ensures Written(Written(m, at, a), at + |a|, b) == Written(m, at, a + b)
  {
  }

  /** m' differs from m at most in the n bytes at a. */
  ghost predicate SameOutside(m: bytes, m': bytes, a: nat, n: nat) {
    |m'| == |m| && a + n <= |m| && m'[..a] == m[..a] && m'[a + n..] == m[a + n..]
  }

  lemma SameRefl(m: bytes, a: nat, n: nat)
    requires a + n <= |m|
    ensures SameOutside(m, m, a, n)
  {
  }

  lemma SameWritten(m: bytes, m': bytes, a: nat, n: nat, at: nat, v: bytes)
    requires SameOutside(m, m', a, n) && a <= at && at + |v| <= a + n
    ensures SameOutside(m, Written(m', at, v), a, n)
  {
    var w := Written(m', at, v);
    assert w[..a] == m'[..a];
    assert w[a + n..] == m'[a + n..];
  }

  lemma SameMoved(m: bytes, m': bytes, a: nat, n: nat, dst: nat, src: nat, k: nat)
    requires SameOutside(m, m', a, n) && a <= dst && dst + k <= a + n && src + k <= |m'|
    ensures SameOutside(m, Moved(m', dst, src, k), a, n)
  {
    var w := Moved(m', dst, src, k);
    assert w[..a] == m'[..a];
    assert w[a + n..] == m'[a + n..];
  }

  lemma SameKeeps(m: bytes, m': bytes, a: nat, n: nat, x: nat, u: bytes)
    requires SameOutside(m, m', a, n) && Occurs(m, x, u) && (x + |u| <= a || a + n <= x)
    ensures Occurs(m', x, u)
  {
    forall k | 0 <= k < |u|
      ensures m'[x + k] == u[k]
    {
      OccursAt(m, x, u, k);
      if x + |u| <= a {
        assert m'[x + k] == m'[..a][x + k] == m[..a][x + k];
      } else {
        assert m'[x + k] == m'[a + n..][x + k - a - n] == m[a + n..][x + k - a - n];
      }
    }
    assert m'[x..x + |u|] == u;
  }

  lemma SameLength(m: bytes, m': bytes, a: nat, n: nat)
    requires SameOutside(m, m', a, n)
    ensures |m'| == |m|
  {
  }

  lemma SameTrans(m: bytes, m1: bytes, m2: bytes, a: nat, n: nat, b: nat, k: nat)
    requires SameOutside(m, m1, a, n) && SameOutside(m1, m2, b, k) && a <= b && b + k <= a + n
    ensures SameOutside(m, m2, a, n)
  {
    assert m2[..a] == m2[..b][..a] == m1[..a];
    assert m2[a + n..] == m2[b + k..][a + n - b - k..] == m1[a + n..];
  }

  lemma SameStored(m: bytes, at: nat, v: bytes)
    requires at + |v| <= |m|
    ensures SameOutside(m, Written(m, at, v), at, |v|)
  {
  }
}
