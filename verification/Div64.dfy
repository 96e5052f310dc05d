/**
  div64.h: 64-bit division by a constant 32-bit divisor, as a multiplication by a reciprocal.
  Unsigned arithmetic wraps explicitly; that it never matters, except where a carry is
  caught, is part of what is proved.
 */
module Div64 {
  import opened Bytes

  // ------------------------------------------------------------------ powers of two

  function Pow2(k: nat): (r: nat)
    ensures r > 0
  {
    if k == 0 then 1 else 2 * Pow2(k - 1)
  }

  /** ilog2: the index of the most significant bit. */
  function Log2(x: nat): (k: nat)
    requires x > 0
    ensures Pow2(k) <= x < 2 * Pow2(k)
  {
    if x == 1 then 0 else 1 + Log2(x / 2)
  }

  /** x & -x: the least significant bit. */
  function LowBit(x: nat): (r: nat)
    requires x > 0
    ensures r > 0
  {
    if x % 2 == 1 then 1 else 2 * LowBit(x / 2)
  }

  ghost predicate IsPow2(x: nat) {
    exists k: nat :: x == Pow2(k)
  }

  lemma {:induction false} LowBitIs(x: nat) returns (k: nat)
    requires x > 0
    ensures LowBit(x) == Pow2(k) && x % LowBit(x) == 0 && LowBit(x) <= x
  {
    if x % 2 == 1 {
      k := 0;
    } else {
      var j := LowBitIs(x / 2);
      k := j + 1;
      var y, l := x / 2, LowBit(x / 2);
      assert y == l * (y / l) + y % l;
      assert x == (2 * l) * (y / l);
      ModMul(y / l, 2 * l);
    }
  }

  lemma ModMul(k: nat, d: nat)
    requires d > 0
    ensures (d * k) % d == 0 && (d * k) / d == k
  {
    DivIs(d * k, d, k);
  }

  lemma DivIs(a: int, d: int, k: int)
    requires d > 0 && k * d <= a < (k + 1) * d
    ensures a / d == k
  {
    var q := a / d;
    assert a == q * d + a % d;
    CancelLt(k, q + 1, d);
    CancelLt(q, k + 1, d);
  }

  /** Unsigned division. */
  function Udiv(a: nat, d: nat): (r: nat)
    requires d > 0
    ensures r == a / d
  {
    DivAtLeast(a, d, 0);
    a / d
  }

  lemma DivBounds(a: nat, d: nat)
    requires d > 0
    ensures a / d >= 0 && (a / d) * d <= a < (a / d + 1) * d
  {
    DivAtLeast(a, d, 0);
    var q := a / d;
    assert a == q * d + a % d;
  }

  lemma MulAssoc(x: int, y: int, z: int)
    ensures x * (y * z) == (x * y) * z
  {
  }

  lemma MulComm(x: int, y: int)
    ensures x * y == y * x
  {
  }

  lemma NestedBounds(a: nat, z: nat, p: nat, q: nat, j: nat)
    requires q * z <= a < (q + 1) * z && j * p <= q < (j + 1) * p
    ensures j * (z * p) <= a < (j + 1) * (z * p)
  {
    MulLe(j * p, z, q, z);
    MulLe(q + 1, z, (j + 1) * p, z);
    MulComm(z, p);
    MulAssoc(j, p, z);
    MulAssoc(j + 1, p, z);
  }

  lemma DivDiv(a: nat, z: nat, p: nat)
    requires z > 0 && p > 0
    ensures z * p > 0 && a / z / p == a / (z * p)
  {
    DivBounds(a, z);
    var q := Udiv(a, z);
    DivBounds(q, p);
    var j := Udiv(q, p);
    NestedBounds(a, z, p, q, j);
    MulLe(1, 1, z, p);
    DivIs(a, z * p, j);
  }

  lemma CancelLt(x: int, y: int, b: int)
    requires b > 0 && x * b < y * b
    ensures x < y
  {
  }

  lemma CancelLe(x: int, y: int, b: int)
    requires b > 0 && x * b <= y * b
    ensures x <= y
  {
  }

  lemma MulLe(a: nat, b: nat, c: nat, d: nat)
    requires a <= c && b <= d
    ensures a * b <= c * d
  {
    assert a * b <= c * b;
    assert c * b <= c * d;
  }

  lemma {:induction false} FactorOfPow2(m: nat, b: nat, j: nat)
    requires m * b == Pow2(j)
    ensures IsPow2(b)
    decreases j
  {
    if j == 0 {
      assert m >= 1 && b >= 1;
      MulLe(1, b, m, b);
      assert b == Pow2(0);
    } else if b % 2 == 0 {
      assert 2 * (m * (b / 2)) == m * b;
      FactorOfPow2(m, b / 2, j - 1);
      var k: nat :| b / 2 == Pow2(k);
      assert b == Pow2(k + 1);
    } else {
      OddFactor(m, b, Pow2(j - 1));
      FactorOfPow2(m / 2, b, j - 1);
    }
  }

  lemma OddFactor(m: nat, b: nat, h: nat)
    requires m * b == 2 * h && b % 2 == 1
    ensures m % 2 == 0 && (m / 2) * b == h
  {
    var c := b / 2;
    assert m * b == 2 * (m * c) + m;
    assert m == 2 * (m / 2);
    assert m * b == 2 * ((m / 2) * b);
  }

  lemma {:induction false} Pow2Divides(i: nat, j: nat)
    requires i <= j
    ensures Pow2(j) == Pow2(i) * Pow2(j - i) && Pow2(i) <= Pow2(j)
    decreases j
  {
    if i < j {
      Pow2Divides(i, j - 1);
      assert Pow2(j) == 2 * (Pow2(i) * Pow2(j - 1 - i)) == Pow2(i) * (2 * Pow2(j - 1 - i));
      MulLe(Pow2(i), 1, Pow2(i), Pow2(j - i));
    }
  }

  lemma {:induction false} Pow2Mono(i: nat, j: nat)
    requires Pow2(i) < 2 * Pow2(j)
    ensures i <= j
  {
    if i > j {
      Pow2Divides(j + 1, i);
    }
  }

  lemma Pow64()
    ensures Pow2(64) == TWO64 && Pow2(32) == TWO32 && Pow2(31) == 0x8000_0000
  {
    assert Pow2(8) == 256;
    Pow2Divides(8, 16);
    Pow2Divides(16, 32);
    Pow2Divides(32, 64);
    assert Pow2(32) == 2 * Pow2(31);
  }

  lemma MulSwap(m: int, n: int, b: int)
    ensures (m * n) * b == n * (m * b)
  {
  }

  lemma Distr(n: int, x: int, y: int)
    ensures n * (x + y) == n * x + n * y && n * (x - y) == n * x - n * y && (x + y) * n == x * n + y * n
  {
  }

  /** (m * n) * b, when m * b is known. */
  lemma ScaledSum(m: nat, n: nat, b: nat, d: int, e: int)
    requires m * b == d + e
    ensures (m * n) * b == n * d + n * e
  {
    MulSwap(m, n, b);
    Distr(n, d, e);
  }

  // ------------------------------------------------------------------ the three reciprocals

  /** m is the reciprocal d / b, d = p * 2^64, rounded up with excess e. */
  ghost predicate RoundedUp(m: nat, p: nat, b: nat, d: nat, e: nat) {
    0 < p < b < 2 * p && d == TWO64 * p && m * b == d + e && 0 < e < b
  }

  /** The quotient of v by d, from bounds on its multiple v * b. */
  lemma Quotient(v: nat, p: nat, b: nat, d: nat, j: nat)
    requires p > 0 && b > 0 && d == TWO64 * p
    requires (j * b) * d <= v * b < ((j + 1) * b) * d
    ensures v / TWO64 / p == j
  {
    MulSwap(j, b, d);
    MulSwap(j + 1, b, d);
    QuotientStep(v, b, d, j);
    DivIs(v, d, j);
    DivDiv(v, TWO64, p);
  }

  lemma QuotientStep(v: nat, b: nat, d: nat, j: nat)
    requires b > 0 && b * (j * d) <= v * b < b * ((j + 1) * d)
    ensures j * d <= v < (j + 1) * d
  {
    CancelLe(j * d, v, b);
    CancelLt(v, (j + 1) * d, b);
  }

  /** n times a rounded-up reciprocal, scaled by b, lies between two multiples of b * d; j and s are quotient and remainder of n. */
  lemma UpBetween(m: nat, n: nat, b: nat, d: nat, e: nat, j: nat, s: nat)
    requires m * b == d + e && n == j * b + s && s < b && n * e < (b - s) * d
    ensures (j * b) * d <= (m * n) * b < ((j + 1) * b) * d
  {
    ScaledSum(m, n, b, d, e);
    NonNeg(n, e);
    MulLe(j * b, d, n, d);
    Distr(b, j, 1);
    Distr(d, n, b - s);
  }

  lemma NonNeg(x: nat, y: nat)
    ensures x * y >= 0
  {
  }

  /** Rounding up is exact for n when its error stays below the distance to the next multiple of b. */
  lemma UpExact(m: nat, p: nat, b: nat, d: nat, e: nat, n: nat)
    requires RoundedUp(m, p, b, d, e)
    requires n * e < (b - n % b) * d
    ensures m * n / TWO64 / p == n / b
  {
    DivBounds(n, b);
    UpBetween(m, n, b, d, e, n / b, n % b);
    Quotient(m * n, p, b, d, n / b);
  }

  /** b divides no power of two, so no 64-bit number leaves remainder b - 1 above x = F / b * b - 1. */
  lemma NoLastRemainder(b: nat)
    requires 0 < b && !IsPow2(b)
    ensures (TWO64 - 1) % b != b - 1
  {
    var q := (TWO64 - 1) / b;
    assert TWO64 - 1 == q * b + (TWO64 - 1) % b;
    if (TWO64 - 1) % b == b - 1 {
      assert (q + 1) * b == TWO64;
      Pow64();
      FactorOfPow2(q + 1, b, 64);
    }
  }

  /** The test point of __div64_const32. */
  function TestPoint(b: nat): int
    requires b > 0
  {
    (TWO64 - 1) / b * b - 1
  }

  lemma TestPointIs(b: nat)
    requires 0 < b < TWO32
    ensures var x, q := TestPoint(b), (TWO64 - 1) / b;
      q >= 1 && 0 <= x < TWO64 && x + 1 == q * b && x / b == q - 1 && x % b == b - 1 && TWO64 - 1 == q * b + (TWO64 - 1) % b
  {
    var q, x := (TWO64 - 1) / b, TestPoint(b);
    assert TWO64 - 1 == q * b + (TWO64 - 1) % b;
    DivAtLeast(TWO64 - 1, b, 1);
    Distr(b, q, 1);
    assert x == (q - 1) * b + (b - 1);
    DivIs(x, b, q - 1);
  }

  /** What the test at x tells about the error: it passes exactly when x * e < 2^64 * p. */
  lemma TestMeans(m: nat, p: nat, b: nat, d: nat, e: nat)
    requires RoundedUp(m, p, b, d, e) && b < TWO32
    ensures TestPoint(b) >= 0
    ensures m * TestPoint(b) / TWO64 / p == TestPoint(b) / b <==> TestPoint(b) * e < d
  {
    TestPointIs(b);
    var q, x := (TWO64 - 1) / b, TestPoint(b);
    if x * e < d {
      UpExact(m, p, b, d, e, x);
    } else {
      ScaledSum(m, x, b, d, e);
      Distr(d, x, 1);
      MulSwap(q, b, d);
      CancelLe(q * d, m * x, b);
      DivDiv(m * x, TWO64, p);
      DivAtLeast(m * x, d, q);
    }
  }

  lemma DivAtLeast(a: nat, d: nat, k: nat)
    requires d > 0 && k * d <= a
    ensures a / d >= k
  {
    var q := a / d;
    assert a == q * d + a % d;
    CancelLt(k, q + 1, d);
  }

  /** Above the test point the remainder is at most b - 2. */
  lemma LastPeriod(b: nat, n: nat)
    requires 0 < b < TWO32 && !IsPow2(b) && TestPoint(b) < n < TWO64
    ensures n % b <= b - 2
  {
    var q := (TWO64 - 1) / b;
    TestPointIs(b);
    NoLastRemainder(b);
    Distr(b, q, 1);
    DivIs(n, b, q);
    assert n == n / b * b + n % b;
  }

  lemma ErrorBound(p: nat, e: nat, n: nat)
    requires e < 2 * p && n < TWO64
    ensures n * e < 2 * (TWO64 * p)
  {
    MulLe(n, e, n, 2 * p - 1);
    MulLe(n, 2 * p - 1, TWO64, 2 * p - 1);
  }

  /** Above the test point the remainder is at most b - 2, and twice 2^64 * p outweighs any error. */
  lemma PastTest(p: nat, b: nat, d: nat, e: nat, n: nat)
    requires 0 < p < b < 2 * p && d == TWO64 * p && e < b < TWO32 && !IsPow2(b) && TestPoint(b) < n < TWO64
    ensures n * e < (b - n % b) * d
  {
    LastPeriod(b, n);
    ErrorBound(p, e, n);
    MulLe(2, d, b - n % b, d);
  }

  /** When the test passes, the rounded-up reciprocal is exact for every 64-bit dividend. */
  lemma RoundUpTheorem(m: nat, p: nat, b: nat, d: nat, e: nat, n: nat)
    requires RoundedUp(m, p, b, d, e) && b < TWO32 && !IsPow2(b) && n < TWO64
    requires TestPoint(b) * e < d
    ensures m * n / TWO64 / p == n / b
  {
    TestPointIs(b);
    if n <= TestPoint(b) {
      MulLe(n, e, TestPoint(b), e);
      MulLe(1, d, b - n % b, d);
    } else {
      PastTest(p, b, d, e, n);
    }
    UpExact(m, p, b, d, e, n);
  }

  /** The test fails only when the excess is more than p. */
  lemma BigExcess(p: nat, b: nat, d: nat, e: nat)
    requires 0 < b < TWO32 && d == TWO64 * p && p > 0 && TestPoint(b) >= 0 && TestPoint(b) * e >= d
    ensures e > p
  {
    TestPointIs(b);
    var x := TestPoint(b);
    if e <= p {
      MulLe(x, e, x, p);
      MulLe(x, p, TWO64 - 1, p);
    }
  }

  /** A reciprocal rounded down by e', at most p, is exact with one more multiple added. */
  lemma BiasExact(m: nat, p: nat, b: nat, d: nat, e': nat, n: nat)
    requires p > 0 && b > 0 && d == TWO64 * p && m * b == d - e' && 0 < e' <= p && n < TWO64
    ensures (m + m * n) / TWO64 / p == n / b
  {
    var j, s := n / b, n % b;
    Distr(m, 1, n);
    ScaledSum(m, n + 1, b, d, 0 - e');
    MulLe(n + 1, e', TWO64, p);
    MulLe(1, 1, n + 1, e');
    Distr(n + 1, 0, e');
    assert n + 1 == j * b + (s + 1);
    Distr(d, j * b, s + 1);
    MulLe(1, d, s + 1, d);
    Distr(b, j, 1);
    MulLe(n + 1, d, (j + 1) * b, d);
    Quotient(m + m * n, p, b, d, j);
  }

  /** The rounded-down reciprocal, biased by one more multiple, is exact when the rounded-up one is not. */
  lemma BiasTheorem(m: nat, p: nat, b: nat, d: nat, e: nat, n: nat)
    requires RoundedUp(m + 1, p, b, d, e) && b < TWO32 && n < TWO64
    requires TestPoint(b) >= 0 && TestPoint(b) * e >= d
    ensures (m + m * n) / TWO64 / p == n / b
  {
    BigExcess(p, b, d, e);
    Distr(b, m, 1);
    BiasExact(m, p, b, d, b - e, n);
  }

  /** When o divides 2^64 - 1, its biased reciprocal (2^64 - 1) / o is exact. */
  lemma SpecialTheorem(o: nat, n: nat)
    requires o > 0 && (TWO64 - 1) % o == 0 && n < TWO64
    ensures var m := (TWO64 - 1) / o; (m + m * n) / TWO64 / 1 == n / o
  {
    var m := (TWO64 - 1) / o;
    assert m * o == TWO64 - 1;
    BiasExact(m, 1, o, TWO64, 1, n);
  }

  // ------------------------------------------------------------------ __arch_xprod_64

  /** The high half of a 128-bit sum of 32-bit limb products. */
  lemma LimbSum(s: nat, b: nat, c: nat, d: nat)
    ensures (s + (b + c) * TWO32 + d * TWO64) / TWO64 == (s / TWO32 + b + c) / TWO32 + d
  {
    var h := s / TWO32 + b + c;
    assert s + (b + c) * TWO32 == h * TWO32 + s % TWO32;
    assert h == h / TWO32 * TWO32 + h % TWO32;
    DivIs(s + (b + c) * TWO32 + d * TWO64, TWO64, h / TWO32 + d);
  }

  lemma LimbProduct(m: nat, n: nat)
    ensures var ml, mh, nl, nh := m % TWO32, m / TWO32, n % TWO32, n / TWO32;
      m * n == ml * nl + (ml * nh + mh * nl) * TWO32 + (mh * nh) * TWO64
  {
    var ml, mh, nl, nh := m % TWO32, m / TWO32, n % TWO32, n / TWO32;
    assert m == ml + mh * TWO32 && n == nl + nh * TWO32;
    Distr(n, ml, mh * TWO32);
    Distr(ml, nl, nh * TWO32);
    Distr(mh * TWO32, nl, nh * TWO32);
    MulSwap(mh, TWO32, nl);
    MulSwap(ml, nh, TWO32);
    assert (mh * TWO32) * (nh * TWO32) == (mh * nh) * TWO64;
  }

  /** m & ((1 << 63) | (1 << 31)) */
  predicate HighBits(m: nat) {
    m / 0x8000_0000_0000_0000 % 2 == 1 || m / 0x8000_0000 % 2 == 1
  }

  lemma NoHighBits(m: nat)
    requires m < TWO64 && !HighBits(m)
    ensures m % TWO32 < 0x8000_0000 && m / TWO32 < 0x8000_0000
  {
  }

  /** (u64)a * b, of two 32-bit limbs. */
  function Mul32(a: nat, b: nat): nat {
    a * b
  }

  /** The sizes of the four limb products. */
  lemma LimbBounds(m: nat, n: nat)
    requires m < TWO64 && n < TWO64
    ensures var ml, mh, nl, nh := Lo32(m), Hi32(m), Lo32(n), Hi32(n);
      var k := if HighBits(m) then TWO32 - 1 else TWO32 / 2 - 1;
      && Mul32(ml, nl) <= k * (TWO32 - 1) && Mul32(ml, nh) <= k * (TWO32 - 1)
      && Mul32(mh, nl) <= k * (TWO32 - 1) && Mul32(mh, nh) <= (TWO32 - 1) * (TWO32 - 1)
  {
    var ml, mh, nl, nh := Lo32(m), Hi32(m), Lo32(n), Hi32(n);
    var k := if HighBits(m) then TWO32 - 1 else TWO32 / 2 - 1;
    if !HighBits(m) {
      NoHighBits(m);
    }
    MulLe(ml, nl, k, TWO32 - 1);
    MulLe(ml, nh, k, TWO32 - 1);
    MulLe(mh, nl, k, TWO32 - 1);
    MulLe(mh, nh, TWO32 - 1, TWO32 - 1);
  }

  /** A wrapped sum is smaller than its second term exactly when a carry was lost. */
  lemma Carry(a: nat, b: nat)
    requires a < TWO64 && b < TWO64
    ensures var r := (a + b) % TWO64; Hi32(r) + (if r < b then TWO32 else 0) == Hi32(a + b) < TWO64
  {
    var r := (a + b) % TWO64;
    assert a + b == r || a + b == r + TWO64;
  }

  /** The low and the high half of a 64-bit number. */
  function Lo32(x: nat): nat {
    x % TWO32
  }

  function Hi32(x: nat): nat {
    DivAtLeast(x, TWO32, 0);
    x / TWO32
  }

  lemma SumFits(a: nat, b: nat)
    requires a < TWO64 && b <= (TWO32 - 1) * (TWO32 - 1)
    ensures Hi32(a) <= TWO32 - 1 && Hi32(a + b) <= 2 * TWO32 - 2
  {
  }

  /** The lowest 64 bits of the sum, shifted down: (bias + ll) >> 32. */
  method LowSum(m: nat, ll: nat, bias: bool) returns (res: nat)
    requires m < TWO64 && ll <= (TWO32 - 1) * (TWO32 - 1)
    requires !HighBits(m) ==> ll <= (TWO32 / 2 - 1) * (TWO32 - 1)
    ensures res == Hi32((if bias then m else 0) + ll) <= 2 * TWO32 - 2
  {
    hide Hi32;
    SumFits(m, ll);
    SumFits(0, ll);
    if !bias {
      res := Hi32(ll % TWO64);
    } else if !HighBits(m) {
      NoOverflow(m, ll);
      res := Hi32((m + ll) % TWO64);
    } else {
      res := (ll + m) % TWO64;
      Carry(ll, m);
      var tmp := if res < m then TWO32 else 0;
      res := (Hi32(res) + tmp) % TWO64;
    }
  }

  lemma NoOverflow(m: nat, ll: nat)
    requires m < TWO64 && !HighBits(m) && ll <= (TWO32 / 2 - 1) * (TWO32 - 1)
    ensures m + ll < TWO64
  {
    NoHighBits(m);
  }

  /** (low + lh + hl) >> 32, when the sum may overflow 64 bits. */
  method CarrySum(low: nat, lh: nat, hl: nat) returns (res: nat)
    requires low <= 2 * TWO32 - 2
    requires lh <= (TWO32 - 1) * (TWO32 - 1) && hl <= (TWO32 - 1) * (TWO32 - 1)
    ensures res == Hi32(low + lh + hl) <= 2 * TWO32 - 2
  {
    hide Hi32;
    res := (low + lh) % TWO64;
    var tmp := res;
    assert tmp == low + lh;
    SumFits(tmp, hl);
    res := (hl + res) % TWO64;
    Carry(hl, tmp);
    tmp := if res < tmp then TWO32 else 0;
    res := (Hi32(res) + tmp) % TWO64;
  }

  /** (low + lh + hl) >> 32. */
  method CrossSum(m: nat, low: nat, lh: nat, hl: nat) returns (res: nat)
    requires m < TWO64 && low <= 2 * TWO32 - 2
    requires lh <= (TWO32 - 1) * (TWO32 - 1) && hl <= (TWO32 - 1) * (TWO32 - 1)
    requires !HighBits(m) ==> lh <= (TWO32 / 2 - 1) * (TWO32 - 1) && hl <= (TWO32 / 2 - 1) * (TWO32 - 1)
    ensures res == Hi32(low + lh + hl) <= 2 * TWO32 - 2
  {
    hide HighBits, Hi32;
    if !HighBits(m) {
      res := (low + lh) % TWO64;
      res := (res + hl) % TWO64;
      SumFits(res, 0);
      res := Hi32(res);
    } else {
      res := CarrySum(low, lh, hl);
    }
  }

  /** __arch_xprod_64: all three ways of adding the limbs give the exact high half. */
  method ArchXprod64(m: nat, n: nat, bias: bool) returns (res: nat)
    requires m < TWO64 && n < TWO64
    ensures res == ((if bias then m else 0) + m * n) / TWO64
  {
    hide Mul32, Lo32, Hi32, HighBits;
    var m_lo, m_hi, n_lo, n_hi := Lo32(m), Hi32(m), Lo32(n), Hi32(n);
    var ll, lh, hl, hh := Mul32(m_lo, n_lo), Mul32(m_lo, n_hi), Mul32(m_hi, n_lo), Mul32(m_hi, n_hi);
    LimbBounds(m, n);
    XprodParts(m, n, if bias then m else 0);
    res := LowSum(m, ll, bias);
    res := CrossSum(m, res, lh, hl);
    res := (res + hh) % TWO64;
  }

  /** The product at the test point, whose carry is always looked for. */
  method TestProduct(m: nat, x: nat) returns (res: nat)
    requires m < TWO64 && x < TWO64
    ensures res == m * x / TWO64
  {
    hide Mul32, Lo32, Hi32, HighBits;
    LimbBounds(m, x);
    XprodParts(m, x, 0);
    var ll := Mul32(Lo32(m), Lo32(x));
    SumFits(ll, 0);
    res := Hi32(ll);
    res := CarrySum(res, Mul32(Lo32(m), Hi32(x)), Mul32(Hi32(m), Lo32(x)));
    res := (res + Mul32(Hi32(m), Hi32(x))) % TWO64;
  }

  lemma XprodParts(m: nat, n: nat, bias: nat)
    requires m < TWO64 && n < TWO64 && (bias == 0 || bias == m)
    ensures var ll, lh := Mul32(Lo32(m), Lo32(n)), Mul32(Lo32(m), Hi32(n));
      var hl, hh := Mul32(Hi32(m), Lo32(n)), Mul32(Hi32(m), Hi32(n));
      Hi32(Hi32(bias + ll) + lh + hl) + hh == (bias + m * n) / TWO64 < TWO64
  {
    var ll, lh := Mul32(Lo32(m), Lo32(n)), Mul32(Lo32(m), Hi32(n));
    var hl, hh := Mul32(Hi32(m), Lo32(n)), Mul32(Hi32(m), Hi32(n));
    LimbProduct(m, n);
    HighHalf(m, n);
    LimbSum(bias + ll, lh, hl, hh);
  }

  /** The high half fits 64 bits. */
  lemma HighHalf(m: nat, n: nat)
    requires m < TWO64 && n < TWO64
    ensures (m + m * n) / TWO64 < TWO64 && m * n / TWO64 < TWO64
  {
    MulLe(m, n + 1, TWO64 - 1, TWO64);
    Distr(m, n, 1);
  }

  // ------------------------------------------------------------------ __div64_const32

  /**
    The two roundings of 2^64 * p / b: q and r are quotient and remainder of 2^64 - 1 by b,
    c and g the quotients of (r + 1) * p by b, rounded up and down.
   */
  lemma Reciprocal(b: nat, p: nat, q: nat, r: nat, c: nat, g: nat) returns (e: nat)
    requires 0 < p < b < 2 * p && b < TWO32 && TWO64 - 1 == q * b + r && r < b
    requires (r + 1) * p <= c * b < (r + 1) * p + b && (c * b == (r + 1) * p || g + 1 == c)
    requires (q * p + c) * b != TWO64 * p
    ensures RoundedUp(q * p + c, p, b, TWO64 * p, e) && g + 1 == c && q * p + c < TWO64
    ensures (r + 1) * p + b - 1 < TWO64 && q * p >= 0
  {
    MulLe(r + 1, p, b, p);
    MulLe(b, p, TWO32 - 1, TWO32 - 1);
    e := c * b - (r + 1) * p;
    ReciprocalSum(q, r, p, b, c, e);
    BelowTwo64(q * p + c, p, b, e);
  }

  lemma ReciprocalSum(q: nat, r: nat, p: nat, b: nat, c: nat, e: int)
    requires TWO64 - 1 == q * b + r && e == c * b - (r + 1) * p
    ensures (q * p + c) * b == TWO64 * p + e
  {
    Distr(b, q * p, c);
    MulSwap(q, p, b);
    Distr(p, q * b, r + 1);
    assert p * (q * b + (r + 1)) == p * TWO64;
  }

  lemma NotPow2(b: nat)
    requires 0 < b && !IsPow2(b)
    ensures Pow2(Log2(b)) < b
  {
    assert Pow2(Log2(b)) == b ==> IsPow2(b);
  }

  lemma CeilIs(y: nat, b: nat)
    requires b > 0
    ensures var c, g := Udiv(y + b - 1, b), Udiv(y, b); y <= c * b < y + b && (c * b == y || g + 1 == c)
  {
    DivBounds(y + b - 1, b);
    var c := Udiv(y + b - 1, b);
    Distr(b, c, 1);
    if c * b != y {
      CancelLt(0, c, b);
      DivIs(y, b, c - 1);
    }
  }

  lemma ExactReciprocal(m: nat, b: nat)
    requires 0 < b && !IsPow2(b)
    ensures m * b != TWO64 * Pow2(Log2(b))
  {
    if m * b == TWO64 * Pow2(Log2(b)) {
      Pow64();
      Pow2Divides(64, 64 + Log2(b));
      FactorOfPow2(m, b, 64 + Log2(b));
    }
  }

  lemma BelowTwo64(m: nat, p: nat, b: nat, e: nat)
    requires 0 < p < b < TWO32 && e < b && m * b == TWO64 * p + e
    ensures m < TWO64
  {
    CancelLt(m, TWO64, b);
  }

  /** Bitwise or of two numbers. */
  function BitOr(x: nat, y: nat): (r: nat)
    ensures r >= x
    decreases x + y
  {
    if x == 0 && y == 0 then 0
    else (if x % 2 == 1 || y % 2 == 1 then 1 else 0) + 2 * BitOr(x / 2, y / 2)
  }

  lemma {:induction false} BitOrFits(x: nat, y: nat, k: nat)
    requires x < Pow2(k) && y < Pow2(k)
    ensures BitOr(x, y) < Pow2(k)
    decreases k
  {
    if k > 0 {
      BitOrFits(x / 2, y / 2, k - 1);
    }
  }

  lemma ScaleBounds(a: nat, d: nat, k: nat, t: nat)
    requires k * d <= a < (k + 1) * d && t > 0
    ensures k * (d * t) <= a * t < (k + 1) * (d * t)
  {
    MulLe(k * d, t, a, t);
    MulLe(a + 1, t, (k + 1) * d, t);
    Distr(t, a, 1);
    MulAssoc(k, d, t);
    MulAssoc(k + 1, d, t);
  }

  /** A scaled quotient. */
  lemma ScaleDiv(a: nat, d: nat, t: nat)
    requires d > 0 && t > 0
    ensures d * t > 0 && (a * t) / (d * t) == a / d
  {
    DivBounds(a, d);
    var k := Udiv(a, d);
    ScaleBounds(a, d, k, t);
    MulLe(1, 1, d, t);
    DivIs(a * t, d * t, k);
  }

  /** The trailing zeros of the rounded-up reciprocal are no more than those of p. */
  lemma LowBitOfReciprocal(m: nat, b: nat, e: nat) returns (c: nat)
    requires 0 < b < TWO32 && RoundedUp(m, Pow2(Log2(b)), b, TWO64 * Pow2(Log2(b)), e) && m > 0 && m < TWO64
    ensures LowBit(m) == Pow2(c) && c <= Log2(b) && m % Pow2(c) == 0
  {
    var l, p := LowBit(m), Pow2(Log2(b));
    c := LowBitIs(m);
    Pow64();
    Pow2Mono(c, 64) by { assert Pow2(c) <= m < TWO64; }
    Pow2Divides(c, 64);
    CommonDivisor(l, m, b, Pow2(64 - c), p, e);
    Pow2Mono(c, Log2(b));
  }

  /** What divides m * b and 2^64 divides, and so is at most, the excess. */
  lemma CommonDivisor(l: nat, m: nat, b: nat, g: nat, p: nat, e: nat)
    requires l > 0 && m % l == 0 && l * g == TWO64 && m * b == TWO64 * p + e && e > 0
    ensures l <= e
  {
    var u := m / l;
    assert m == u * l;
    assert (u * b) * l == m * b by { MulSwap(u, b, l); MulSwap(u, l, b); }
    assert (g * p) * l == TWO64 * p by { MulSwap(g, p, l); MulSwap(l, g, p); }
    Distr(l, u * b, g * p);
    var k := u * b - g * p;
    assert e == k * l;
    CancelLt(0, k, l);
    MulLe(1, l, k, l);
  }

  lemma Rotate(k: int, t: int, g: int)
    ensures k * (t * g) == t * (k * g)
  {
  }

  lemma FactorOut(x: nat, k: nat, t: nat, g: nat)
    requires t > 0 && x == k * (t * g)
    ensures x / t == k * g && x == (x / t) * t
  {
    Rotate(k, t, g);
    ModMul(k * g, t);
  }

  /** Dividing by a power of two no higher than the lowest bit is exact. */
  lemma PowFactor(x: nat, c: nat, t: nat)
    requires t <= c && x % Pow2(c) == 0
    ensures x == (x / Pow2(t)) * Pow2(t)
  {
    hide Pow2;
    Pow2Divides(t, c);
    FactorOut(x, x / Pow2(c), Pow2(t), Pow2(c - t));
  }

  /** bits, as the macro computes it: its most significant bit is no higher than the lowest bit of m. */
  lemma BitsBound(low: nat, hi: nat, c: nat)
    requires low == Pow2(c) && low < TWO32 && hi < TWO32
    ensures var z := BitOr((TWO64 - low) % TWO32, hi); z < TWO32 && (TWO32 - 1 - z) * 2 < 2 * low
  {
    Pow64();
    BitOrFits((TWO64 - low) % TWO32, hi, 32);
  }

  lemma Reduced(m0: nat, p0: nat, b: nat, c: nat, t: nat) returns (m: nat, p: nat)
    requires b > 0 && t <= c <= Log2(b) && m0 % Pow2(c) == 0 && m0 < TWO64 && p0 == Pow2(Log2(b))
    ensures m == m0 / Pow2(t) && p == p0 / Pow2(t) && m0 == m * Pow2(t) && p0 == p * Pow2(t) && p > 0 && m < TWO64
  {
    hide Pow2, Log2;
    Pow2Zero(Log2(b));
    PowFactor(m0, c, t);
    PowFactor(p0, Log2(b), t);
    DivBounds(m0, Pow2(t));
    DivBounds(p0, Pow2(t));
    m, p := m0 / Pow2(t), p0 / Pow2(t);
    MulLe(m, 1, m, Pow2(t));
    CancelLt(0, p, Pow2(t));
  }

  /** The bits of the macro: none, or a number whose most significant bit is no higher than the lowest bit of m. */
  method TopBits(m: nat, low: nat, ghost c: nat) returns (bits: nat)
    requires m < TWO64 && low == Pow2(c) && low < TWO32
    ensures bits < TWO32 && bits < 2 * low
  {
    hide Pow2, BitOr;
    BitsBound(low, m / TWO32, c);
    bits := (TWO64 - low) % TWO32;
    bits := BitOr(bits, m / TWO32);
    bits := ((TWO32 - 1 - bits) * 2) % TWO32;
  }

  /** Dividing m and p by a common power of two; scale is that power. */
  method Reduce(m0: nat, p0: nat, ghost b: nat, ghost e: nat) returns (m: nat, p: nat, ghost scale: nat)
    requires 0 < b < TWO32 && p0 == Pow2(Log2(b)) && RoundedUp(m0, p0, b, TWO64 * p0, e) && 0 < m0 < TWO64
    ensures scale > 0 && m0 == m * scale && p0 == p * scale && p > 0 && m < TWO64
  {
    hide LowBit, Log2, Pow2, RoundedUp;
    var low := LowBit(m0);
    ghost var c := LowBitOfReciprocal(m0, b, e);
    LowFits(b, c);
    var bits := TopBits(m0, low, c);
    ghost var mm, pp;
    if bits == 0 {
      mm, pp := Reduced(m0, p0, b, c, c);
      p, m, scale := p0 / low, m0 / low, low;
    } else {
      var t := Log2(bits);
      Pow2Mono(t, c);
      mm, pp := Reduced(m0, p0, b, c, t);
      p, m, scale := p0 / Pow2(t), m0 / Pow2(t), Pow2(t);
    }
  }

  lemma Pow2Zero(k: nat)
    ensures Pow2(k) % Pow2(k) == 0
  {
  }

  lemma LowFits(b: nat, c: nat)
    requires 0 < b < TWO32 && c <= Log2(b)
    ensures Pow2(c) < TWO32
  {
    Pow2Divides(c, Log2(b));
  }

  lemma ScaledProduct(m0: nat, p0: nat, m: nat, p: nat, scale: nat, n: nat)
    requires scale > 0 && p > 0 && m0 == m * scale && p0 == p * scale && p0 > 0
    ensures m0 * n / TWO64 / p0 == m * n / TWO64 / p
  {
    DivDiv(m0 * n, TWO64, p0);
    DivDiv(m * n, TWO64, p);
    MulSwap(m, n, scale);
    MulSwap(m, scale, n);
    MulSwap(TWO64, p, scale);
    assert m0 * n == (m * n) * scale && TWO64 * p0 == (TWO64 * p) * scale;
    ScaleDiv(m * n, TWO64 * p, scale);
  }

  /** n / low / odd is n / b for b == low * odd. */
  lemma OddPart(n: nat, b: nat)
    requires b > 0
    ensures var l := LowBit(b); b / l > 0 && n / l / (b / l) == n / b
  {
    var l := LowBit(b);
    var k := LowBitIs(b);
    var o := b / l;
    assert b == o * l;
    CancelLt(0, o, l);
    DivDiv(n, l, o);
  }

  /** ~0ULL / b and ~0ULL % b */
  function Quot(b: nat): nat
    requires b > 0
  {
    Udiv(TWO64 - 1, b)
  }

  function Rest(b: nat): nat
    requires b > 0
  {
    (TWO64 - 1) % b
  }

  /** The macro's two values of ___m, with its 64-bit wraps. */
  function UpM(b: nat, p: nat): nat
    requires b > 0
  {
    (Quot(b) * p % TWO64 + Udiv(((Rest(b) + 1) * p + b - 1) % TWO64, b)) % TWO64
  }

  function DownM(b: nat, p: nat): nat
    requires b > 0
  {
    (Quot(b) * p % TWO64 + Udiv((Rest(b) + 1) * p % TWO64, b)) % TWO64
  }

  lemma QuotRest(b: nat)
    requires b > 0
    ensures TWO64 - 1 == Quot(b) * b + Rest(b) && Rest(b) < b
  {
  }

  lemma MacroReciprocal(b: nat) returns (e: nat)
    requires 0 < b < TWO32 && !IsPow2(b)
    ensures var p := Pow2(Log2(b));
      RoundedUp(UpM(b, p), p, b, TWO64 * p, e) && DownM(b, p) + 1 == UpM(b, p) < TWO64
  {
    hide Pow2, Log2, IsPow2, Quot, Rest, Udiv;
    var p, q, r := Pow2(Log2(b)), Quot(b), Rest(b);
    var y := (r + 1) * p;
    NotPow2(b);
    QuotRest(b);
    CeilIs(y, b);
    var c, g := Udiv(y + b - 1, b), Udiv(y, b);
    ExactReciprocal(q * p + c, b);
    e := Reciprocal(b, p, q, r, c, g);
    ModSmall(q * p);
    ModSmall(y + b - 1);
    ModSmall(y);
    ModSmall(q * p + c);
    ModSmall(q * p + g);
  }

  lemma ModSmall(a: nat)
    requires a < TWO64
    ensures a % TWO64 == a
  {
  }

  /** Each of the three reciprocals gives n / b in the case the macro uses it for. */
  lemma Cases(b: nat, n: nat) returns (e: nat)
    requires 0 < b < TWO32 && !IsPow2(b) && n < TWO64
    ensures var p, f, x, o := Pow2(Log2(b)), TWO64 - 1, TestPoint(b), b / LowBit(b);
      var up, down := UpM(b, p), DownM(b, p);
      && RoundedUp(up, p, b, TWO64 * p, e) && 0 < up < TWO64 && down < TWO64 && 0 <= x < TWO64 && o > 0
      && (f % o == 0 ==> (f / o + f / o * (n / LowBit(b))) / TWO64 / 1 == n / b)
      && (up * x / TWO64 / p != x / b ==> (down + down * n) / TWO64 / p == n / b)
      && (up * x / TWO64 / p == x / b ==> up * n / TWO64 / p == n / b)
  {
    hide Pow2, Log2, LowBit, IsPow2, UpM, DownM;
    var p, d, o := Pow2(Log2(b)), TWO64 * Pow2(Log2(b)), b / LowBit(b);
    e := MacroReciprocal(b);
    TestPointIs(b);
    TestMeans(UpM(b, p), p, b, d, e);
    OddPart(n, b);
    if (TWO64 - 1) % o == 0 {
      SpecialTheorem(o, n / LowBit(b));
    }
    if TestPoint(b) * e < d {
      RoundUpTheorem(UpM(b, p), p, b, d, e, n);
    } else {
      BiasTheorem(DownM(b, p), p, b, d, e, n);
    }
  }

  /** __div64_const32: exact for every 64-bit dividend, whichever way the divisor makes it go. */
  method Div64Const32(dividend: nat, b: nat) returns (res: nat)
    requires dividend < TWO64 && 0 < b < TWO32 && !IsPow2(b)
    ensures res == dividend / b
  {
    hide LowBit, Log2, Pow2, IsPow2, RoundedUp, UpM, DownM;
    ghost var e := Cases(b, dividend);
    var f := TWO64 - 1;
    var n, bias := dividend, false;
    var p := Pow2(Log2(b));
    var m := UpM(b, p);
    var x := TestPoint(b);
    res := TestProduct(m, x);
    res := Udiv(res, p);
    var low := LowBit(b);
    if f % Udiv(b, low) == 0 {
      n := Udiv(n, low);
      m := Udiv(f, Udiv(b, low));
      p, bias := 1, true;
    } else if res != Udiv(x, b) {
      bias := true;
      m := DownM(b, p);
    } else {
      ghost var m0, p0, scale := m, p, 1;
      m, p, scale := Reduce(m, p, b, e);
      ScaledProduct(m0, p0, m, p, scale, n);
    }
    res := ArchXprod64(m, n, bias);
    res := Udiv(res, p);
  }

  // ------------------------------------------------------------------ do_div

  /** Bitwise and of two numbers. */
  function BitAnd(x: nat, y: nat): (r: nat)
    decreases x + y
  {
    if x == 0 && y == 0 then 0
    else (if x % 2 == 1 && y % 2 == 1 then 1 else 0) + 2 * BitAnd(x / 2, y / 2)
  }

  lemma {:induction false} BitAndSelf(x: nat)
    ensures BitAnd(x, x) == x
  {
    if x > 0 {
      BitAndSelf(x / 2);
    }
  }

  lemma OddPow2(x: nat)
    requires x % 2 == 1
    ensures IsPow2(x) ==> x == 1
  {
  }

  /** is_power_of_2: x & (x - 1) is 0 for powers of two only. */
  lemma {:induction false} PowerOfTwoTest(x: nat)
    requires x > 0
    ensures BitAnd(x, x - 1) == 0 <==> IsPow2(x)
  {
    if x % 2 == 1 {
      assert (x - 1) / 2 == x / 2;
      BitAndSelf(x / 2);
      assert BitAnd(x, x - 1) == 2 * (x / 2);
      assert IsPow2(1) by { assert 1 == Pow2(0); }
      OddPow2(x);
    } else {
      assert (x - 1) / 2 == x / 2 - 1;
      PowerOfTwoTest(x / 2);
      if IsPow2(x / 2) {
        var k: nat :| x / 2 == Pow2(k);
        assert x == Pow2(k + 1);
      }
      if IsPow2(x) {
        var k: nat :| x == Pow2(k);
        assert k > 0 && x / 2 == Pow2(k - 1);
      }
    }
  }

  /** Masking with 2^k - 1 is the remainder. */
  lemma {:induction false} MaskIsMod(n: nat, k: nat)
    ensures BitAnd(n, Pow2(k) - 1) == n % Pow2(k)
    decreases k
  {
    if k == 0 {
      AndZero(n);
    } else {
      MaskIsMod(n / 2, k - 1);
      ModTwice(n, Pow2(k - 1));
    }
  }

  lemma ModTwice(n: nat, h: nat)
    requires h > 0
    ensures n % (2 * h) == 2 * (n / 2 % h) + n % 2
  {
    var q, s := n / 2 / h, n / 2 % h;
    assert n / 2 == q * h + s;
    Rotate(q, 2, h);
    Distr(2 * h, q, 1);
    DivIs(n, 2 * h, q);
  }

  lemma {:induction false} AndZero(x: nat)
    ensures BitAnd(x, 0) == 0
    decreases x
  {
    if x > 0 {
      AndZero(x / 2);
    }
  }

  lemma Log2OfPow2(x: nat)
    requires x > 0 && IsPow2(x)
    ensures x == Pow2(Log2(x))
  {
    var k: nat :| x == Pow2(k);
    Pow2Mono(Log2(x), k);
    Pow2Mono(k, Log2(x));
  }

  /** The low halves of dividend and quotient give the remainder. */
  lemma LowRemainder(n: nat, q: nat, b: nat)
    requires 0 < b < TWO32 && q == n / b
    ensures (n % TWO32 - (q % TWO32) * b) % TWO32 == n % b
  {
    var a, c, r := n / TWO32, q / TWO32, n % b;
    assert n == q * b + r;
    assert n % TWO32 == n - a * TWO32 && q % TWO32 == q - c * TWO32;
    Distr(b, q, c * TWO32);
    MulSwap(c, TWO32, b);
    assert (c * TWO32) * b == TWO32 * (c * b) by { Rotate(c, TWO32, b); }
    assert n % TWO32 - (q % TWO32) * b == r + TWO32 * (c * b - a);
    DivIs(r + TWO32 * (c * b - a), TWO32, c * b - a);
  }

  /** do_div with a constant base, or a dividend of 32 bits: quotient and remainder. */
  method DoDiv(n: nat, base: nat, constant: bool) returns (q: nat, rem: nat)
    requires n < TWO64 && 0 < base < TWO32 && (constant || n < TWO32)
    ensures q == n / base && rem == n % base
  {
    hide BitAnd, Pow2, Log2;
    PowerOfTwoTest(base);
    if constant && BitAnd(base, base - 1) == 0 {
      var k := Log2(base);
      Log2OfPow2(base);
      MaskIsMod(n, k);
      rem := BitAnd(n, base - 1);
      q := Udiv(n, base);
    } else if constant {
      var n_lo := n % TWO32;
      q := Div64Const32(n, base);
      var res_lo := q % TWO32;
      LowRemainder(n, q, base);
      rem := (n_lo - res_lo * base) % TWO32;
    } else {
      rem := n % TWO32 % base;
      q := Udiv(n % TWO32, base);
    }
  }
}
