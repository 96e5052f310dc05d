/**
  The structure block as a sequence of tokens.  Each token owns the bytes from its tag up to the
  next tag, padding included, so a block is exactly the concatenation of its tokens' bytes and
  a byte offset of a tag is the encoded length of the tokens before it.
 */
module Tokens {
  import opened Bytes

  const FDT_BEGIN_NODE: nat := 1
  const FDT_END_NODE: nat := 2
  const FDT_PROP: nat := 3
  const FDT_NOP: nat := 4
  const FDT_END: nat := 9

  datatype Tok =
    | TBegin(name: bytes, npad: bytes)
    | TEnd
    | TProp(nameoff: nat, value: bytes, ppad: bytes)
    | TNop
    | TFin

  /** What the 32-bit fields and the four-byte alignment allow. */
  predicate OkTok(t: Tok) {
    match t
    case TBegin(name, pad) => NoNul(name) && |pad| < 4 && (|name| + 1 + |pad|) % 4 == 0
    case TProp(off, value, pad) => off < TWO32 && |value| < 0x8000_0000 && |pad| < 4 && (|value| + |pad|) % 4 == 0
    case _ => true
  }

  predicate OkToks(ts: seq<Tok>) {
    forall i :: 0 <= i < |ts| ==> OkTok(ts[i])
  }

  function TagOf(t: Tok): (r: nat) {
    match t
    case TBegin(_, _) => FDT_BEGIN_NODE
    case TEnd => FDT_END_NODE
    case TProp(_, _, _) => FDT_PROP
    case TNop => FDT_NOP
    case TFin => FDT_END
  }

  /** The bytes after the tag word. */
  function Body(t: Tok): bytes {
    match t
    case TBegin(name, pad) => name + [0] + pad
    case TProp(off, value, pad) => BE32(|value|) + BE32(off) + value + pad
    case _ => []
  }

  function EncTok(t: Tok): (r: bytes)
    ensures |r| >= 4
  {
    BE32(TagOf(t)) + Body(t)
  }

  function Enc(ts: seq<Tok>): bytes {
    if ts == [] then [] else EncTok(ts[0]) + Enc(ts[1..])
  }

  /** The byte offset of token i. */
  function Off(ts: seq<Tok>, i: nat): nat
    requires i <= |ts|
  {
    |Enc(ts[..i])|
  }

  lemma {:induction false} EncConcat(a: seq<Tok>, b: seq<Tok>)
    ensures Enc(a + b) == Enc(a) + Enc(b)
  {
    if a == [] {
      assert a + b == b;
    } else {
      var t, a' := a[0], a[1..];
      assert (a + b)[0] == t && (a + b)[1..] == a' + b;
      calc {
        Enc(a + b);
        EncTok(t) + Enc(a' + b);
        { EncConcat(a', b); }
        EncTok(t) + (Enc(a') + Enc(b));
        { Assoc(EncTok(t), Enc(a'), Enc(b)); }
        Enc(a) + Enc(b);
      }
    }
  }

  lemma EncOne(t: Tok)
    ensures Enc([t]) == EncTok(t)
  {
    assert Enc([t][1..]) == [];
  }

  /** Token i sits at its offset, with the tokens before and after it around it. */
  lemma EncSplit(ts: seq<Tok>, i: nat)
    requires i < |ts|
    ensures Enc(ts) == Enc(ts[..i]) + EncTok(ts[i]) + Enc(ts[i + 1..])
    ensures Off(ts, i + 1) == Off(ts, i) + |EncTok(ts[i])| <= |Enc(ts)|
  {
    assert ts[..i] + [ts[i]] == ts[..i + 1];
    assert ts[..i + 1] + ts[i + 1..] == ts;
    EncConcat(ts[..i], [ts[i]]);
    EncOne(ts[i]);
    EncConcat(ts[..i + 1], ts[i + 1..]);
  }

  /** The bytes at token i's offset are the token's bytes. */
  lemma EncAt(ts: seq<Tok>, i: nat)
    requires i < |ts|
    ensures Off(ts, i) + |EncTok(ts[i])| == Off(ts, i + 1) <= |Enc(ts)|
    ensures Occurs(Enc(ts), Off(ts, i), EncTok(ts[i]))
  {
    EncSplit(ts, i);
    Middle(Enc(ts[..i]), EncTok(ts[i]), Enc(ts[i + 1..]));
  }

  lemma OffMono(ts: seq<Tok>, i: nat, j: nat)
    requires i <= j <= |ts|
    ensures Off(ts, i) + 4 * (j - i) <= Off(ts, j)
    decreases j - i
  {
    if i < j {
      EncSplit(ts, i);
      OffMono(ts, i + 1, j);
    }
  }

  lemma OkTokLength(t: Tok)
    requires OkTok(t)
    ensures |EncTok(t)| % 4 == 0
  {
    hide BE32;
  }

  lemma {:induction false} EncAligned(ts: seq<Tok>)
    requires OkToks(ts)
    ensures |Enc(ts)| % 4 == 0
  {
    hide EncTok;
    if ts != [] {
      OkTokLength(ts[0]);
      EncAligned(ts[1..]);
    }
  }

  // ------------------------------------------------------------------ decoding is unique

  /** An encoded token is a prefix code: what follows it does not change how it is read. */
  lemma TokUnique(a: Tok, x: bytes, b: Tok, y: bytes)
    requires OkTok(a) && OkTok(b)
    requires EncTok(a) + x == EncTok(b) + y
    ensures a == b && x == y
  {
    Assoc(BE32(TagOf(a)), Body(a), x);
    Assoc(BE32(TagOf(b)), Body(b), y);
    WordUnique(TagOf(a), Body(a) + x, TagOf(b), Body(b) + y);
    match a
    case TBegin(n, p) => BeginUnique(n, p, x, b.name, b.npad, y);
    case TProp(o, v, p) => PropUnique(o, v, p, x, b.nameoff, b.value, b.ppad, y);
    case _ =>
      assert [] + x == x && [] + y == y;
  }

  lemma WordUnique(s: nat, x: bytes, t: nat, y: bytes)
    requires s < TWO32 && t < TWO32
    requires BE32(s) + x == BE32(t) + y
    ensures s == t && x == y
  {
    CatInj(BE32(s), x, BE32(t), y);
    BE32RoundTrip(s);
    BE32RoundTrip(t);
  }

  /** The first NUL ends a name. */
  lemma {:induction false} NameUnique(n: bytes, u: bytes, m: bytes, v: bytes)
    requires NoNul(n) && NoNul(m)
    requires n + [0] + u == m + [0] + v
    ensures n == m && u == v
  {
    var l, r := n + [0] + u, m + [0] + v;
    assert l[0] == r[0];
    assert l[1..] == r[1..];
    if n == [] || m == [] {
      assert l[0] == 0;
      assert n == [] == m;
      assert l[1..] == u && r[1..] == v;
    } else {
      assert l[1..] == n[1..] + [0] + u && r[1..] == m[1..] + [0] + v;
      NameUnique(n[1..], u, m[1..], v);
      assert n == [n[0]] + n[1..] && m == [m[0]] + m[1..];
    }
  }

  lemma BeginUnique(n: bytes, p: bytes, x: bytes, m: bytes, q: bytes, y: bytes)
    requires NoNul(n) && NoNul(m) && |p| < 4 && |q| < 4
    requires (|n| + 1 + |p|) % 4 == 0 == (|m| + 1 + |q|) % 4
    requires (n + [0] + p) + x == (m + [0] + q) + y
    ensures n == m && p == q && x == y
  {
    Assoc(n + [0], p, x);
    Assoc(m + [0], q, y);
    NameUnique(n, p + x, m, q + y);
    CatInj(p, x, q, y);
  }

  lemma PropUnique(o: nat, v: bytes, p: bytes, x: bytes, o': nat, v': bytes, p': bytes, y: bytes)
    requires OkTok(TProp(o, v, p)) && OkTok(TProp(o', v', p'))
    requires BE32(|v|) + BE32(o) + v + p + x == BE32(|v'|) + BE32(o') + v' + p' + y
    ensures o == o' && v == v' && p == p' && x == y
  {
    hide BE32;
    PropShape(BE32(|v|), BE32(o), v, p, x);
    PropShape(BE32(|v'|), BE32(o'), v', p', y);
    WordUnique(|v|, BE32(o) + (v + (p + x)), |v'|, BE32(o') + (v' + (p' + y)));
    WordUnique(o, v + (p + x), o', v' + (p' + y));
    CatInj(v, p + x, v', p' + y);
    CatInj(p, x, p', y);
  }

  lemma PropShape(a: bytes, b: bytes, c: bytes, d: bytes, e: bytes)
    ensures a + b + c + d + e == a + (b + (c + (d + e)))
  {
    Assoc(a, b, c + (d + e));
    Assoc(a + b, c, d + e);
    Assoc(a + b + c, d, e);
  }

  /** The tokens of a block are determined by its bytes. */
  lemma {:induction false} EncUnique(a: seq<Tok>, b: seq<Tok>)
    requires OkToks(a) && OkToks(b) && Enc(a) == Enc(b)
    ensures a == b
  {
    if a != [] && b != [] {
      TokUnique(a[0], Enc(a[1..]), b[0], Enc(b[1..]));
      EncUnique(a[1..], b[1..]);
      assert a == [a[0]] + a[1..] && b == [b[0]] + b[1..];
    }
  }
}
