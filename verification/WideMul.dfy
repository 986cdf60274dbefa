/**
 The high halves of 64-bit products (UMULH and SMULH), computed by the
 interpreter from 32-bit pieces in wrapping 64-bit arithmetic, against the exact
 products of the Arm ARM (DDI 0487, section C6.2).
 */
module WideMul {
  import opened Common

  function Mul64(a: int, b: int): u64 {
    a * b % TWO64
  }

  /** The piecewise product: high word, low 32 bits of the middle sum, low product. */
  datatype Pieces = Pieces(hi: u64, mid: u64, low: u64)

  /** The four partial products and their carries, with every C operation wrapping. */
  function Multiply(x: u64, y: u64): Pieces {
    var xl, xh, yl, yh := x % TWO32, x / TWO32, y % TWO32, y / TWO32;
    var low := Mul64(xl, yl);
    var t1 := Add64(Mul64(xl, yh), low / TWO32);
    var t2 := Add64(Mul64(xh, yl), t1 % TWO32);
    Pieces(Add64(Add64(Mul64(xh, yh), t1 / TWO32), t2 / TWO32), t2 % TWO32, low)
  }

  function Umulh(x: u64, y: u64): u64 {
    Multiply(x, y).hi
  }

  function Signed(x: u64): int {
    if x < TWO64 / 2 then x else x - TWO64
  }

  /** `-s` or `s` as an unsigned word; negating the least value wraps to itself. */
  function Magnitude(x: u64): u64 {
    if Signed(x) < 0 then Wrap64(-Signed(x)) else x
  }

  function Or64(x: u64, y: u64): (r: u64) {
    ((x as bv64) | (y as bv64)) as int
  }

  function Not64(x: u64): u64 {
    TWO64 - 1 - x
  }

  /** SMULH: the low word is tested with the untruncated low product still in it. */
  function Smulh(x: u64, y: u64): u64 {
    var p := Multiply(Magnitude(x), Magnitude(y));
    if (Signed(x) < 0) != (Signed(y) < 0) then
      if Or64(p.low, p.mid * TWO32) == 0 then Add64(Not64(p.hi), 1) else Not64(p.hi)
    else p.hi
  }

  // ----- exactness of the pieces -----

  lemma ProductBound(a: nat, b: nat, m: nat)
    requires a <= m && b <= m
    ensures 0 <= a * b <= m * m
  {
    assert m * m - a * b == (m - a) * m + a * (m - b);
  }

  lemma HalfProduct(a: int, b: int)
    requires 0 <= a < TWO32 && 0 <= b < TWO32
    ensures 0 <= a * b <= (TWO32 - 1) * (TWO32 - 1)
    ensures Mul64(a, b) == a * b
  {
    ProductBound(a, b, TWO32 - 1);
  }

  lemma Expand(xl: int, xh: int, yl: int, yh: int)
    ensures (xh * TWO32 + xl) * (yh * TWO32 + yl) ==
      xh * yh * TWO64 + (xh * yl + xl * yh) * TWO32 + xl * yl
  {
  }

  /** Every step of the multiplication, taken exactly, fits 64 bits. */
  ghost predicate NoStepWraps(xl: nat, xh: nat, yl: nat, yh: nat) {
    var t1 := xl * yh + xl * yl / TWO32;
    var t2 := xh * yl + t1 % TWO32;
    && xl * yl < TWO64 && xl * yh < TWO64 && xh * yl < TWO64 && xh * yh < TWO64
    && t1 < TWO64 && t2 < TWO64 && xh * yh + t1 / TWO32 < TWO64 && xh * yh + t1 / TWO32 + t2 / TWO32 < TWO64
  }

  /** Schoolbook carries: no step overflows and the pieces make up the exact product. */
  lemma MultiplyExact(x: u64, y: u64)
    ensures NoStepWraps(x % TWO32, x / TWO32, y % TWO32, y / TWO32)
    ensures var p := Multiply(x, y);
      && p.mid < TWO32
      && x * y == p.hi * TWO64 + p.mid * TWO32 + p.low % TWO32
  {
    var xl, xh, yl, yh := x % TWO32, x / TWO32, y % TWO32, y / TWO32;
    HalfProduct(xl, yl);
    HalfProduct(xl, yh);
    HalfProduct(xh, yl);
    HalfProduct(xh, yh);
    Expand(xl, xh, yl, yh);
    assert x == xh * TWO32 + xl && y == yh * TWO32 + yl;
    Carries(xl * yl, xl * yh, xh * yl, xh * yh);
  }

  /** The same on the four products as plain numbers. */
  lemma Carries(ll: nat, lh: nat, hl: nat, hh: nat)
    requires ll <= (TWO32 - 1) * (TWO32 - 1) && lh <= (TWO32 - 1) * (TWO32 - 1)
    requires hl <= (TWO32 - 1) * (TWO32 - 1) && hh <= (TWO32 - 1) * (TWO32 - 1)
    ensures var t1 := lh + ll / TWO32;
      var t2 := hl + t1 % TWO32;
      var hi := hh + t1 / TWO32 + t2 / TWO32;
      && t1 < TWO64 && t2 < TWO64 && hi < TWO64
      && hh * TWO64 + (hl + lh) * TWO32 + ll == hi * TWO64 + t2 % TWO32 * TWO32 + ll % TWO32
  {
  }

  lemma DivBySpan(v: int, hi: int, lo: int)
    requires v == hi * TWO64 + lo && 0 <= lo < TWO64
    ensures v / TWO64 == hi && v % TWO64 == lo
  {
  }

  /** UMULH is the floor of the exact product by 2^64. */
  lemma UmulhExact(x: u64, y: u64)
    ensures Umulh(x, y) == x * y / TWO64
  {
    var p := Multiply(x, y);
    MultiplyExact(x, y);
    DivBySpan(x * y, p.hi, p.mid * TWO32 + p.low % TWO32);
  }

  // ----- the zero test of SMULH -----

  function Pow2(n: nat): (r: nat)
    ensures r >= 1
  {
    if n == 0 then 1 else 2 * Pow2(n - 1)
  }

  lemma Double(x: nat, p: nat)
    requires p > 0
    ensures 2 * x % (2 * p) == 2 * (x % p)
  {
    var q, r := x / p, x % p;
    assert x == q * p + r;
    assert 2 * x == q * (2 * p) + 2 * r;
    RemainderIs(2 * x, 2 * p, q, 2 * r);
  }

  lemma MulAtLeast(e: int, d: nat)
    requires e >= 1
    ensures e * d >= d
  {
  }

  lemma RemainderIs(v: nat, d: nat, q: nat, r: nat)
    requires d > 0 && v == q * d + r && r < d
    ensures v % d == r
  {
    var e := v / d - q;
    assert v == v / d * d + v % d;
    assert e * d == v / d * d - q * d;
    if e >= 1 {
      MulAtLeast(e, d);
    } else if e <= -1 {
      MulAtLeast(-e, d);
    }
  }

  /** A number with few trailing zero bits is not a multiple of a high power of two. */
  lemma {:induction false} TrailingZeros(a: nat, b: nat, i: nat, j: nat)
    requires i >= 1 && j >= 1 && a % Pow2(i) != 0 && b % Pow2(j) != 0
    ensures a * b % Pow2(i + j - 1) != 0
    decreases i + j
  {
    if a % 2 == 0 {
      Halve(a, i);
      TrailingZeros(a / 2, b, i - 1, j);
      EvenFactor(a, b, i + j - 2);
    } else if b % 2 == 0 {
      Halve(b, j);
      TrailingZeros(a, b / 2, i, j - 1);
      HalfTimes(b, a);
      EvenFactor(b, a, i + j - 2);
    } else {
      OddFactors(a, b, i + j - 2);
    }
  }

  lemma EvenFactor(a: nat, b: nat, n: nat)
    requires a % 2 == 0 && a / 2 * b % Pow2(n) != 0
    ensures a * b % Pow2(n + 1) != 0
  {
    HalfTimes(a, b);
    TwiceStep(a * b, a / 2 * b, n);
  }

  lemma OddFactors(a: nat, b: nat, n: nat)
    requires a % 2 == 1 && b % 2 == 1
    ensures a * b % Pow2(n + 1) != 0
  {
    OddProduct(a, b);
    EvenMultiple(a * b, Pow2(n));
  }

  lemma HalfTimes(a: nat, b: nat)
    requires a % 2 == 0
    ensures a * b == 2 * (a / 2 * b) && a / 2 * b == b * (a / 2) && a * b == b * a
  {
    assert a == 2 * (a / 2);
  }

  lemma TwiceStep(v: nat, w: nat, n: nat)
    requires v == 2 * w && w % Pow2(n) != 0
    ensures v % Pow2(n + 1) != 0
  {
    Double(w, Pow2(n));
  }

  /** An even number that 2^i does not divide: i is above 1, and 2^(i-1) does not divide its half. */
  lemma Halve(a: nat, i: nat)
    requires i >= 1 && a % 2 == 0 && a % Pow2(i) != 0
    ensures i >= 2 && a / 2 % Pow2(i - 1) != 0
  {
    assert Pow2(1) == 2 * Pow2(0);
    assert a == 2 * (a / 2);
    Double(a / 2, Pow2(i - 1));
  }

  lemma OddProduct(a: nat, b: nat)
    requires a % 2 == 1 && b % 2 == 1
    ensures a * b % 2 == 1
  {
    var k, m := a / 2, b / 2;
    assert a * b == 2 * (2 * k * m + k + m) + 1 by {
      assert a == 2 * k + 1 && b == 2 * m + 1;
    }
  }

  lemma EvenMultiple(v: nat, p: nat)
    requires v % 2 == 1 && p > 0
    ensures v % (2 * p) != 0
  {
    var q := v / (2 * p);
    assert v == q * (2 * p) + v % (2 * p);
    assert q * (2 * p) == 2 * (q * p);
  }

  lemma Pow2Double(n: nat, m: nat, v: nat, w: nat)
    requires m == n + n && Pow2(n) == v && w == v * v
    ensures Pow2(m) == w
  {
    Pow2Add(n, n);
  }

  lemma Pow2Of(a: nat, b: nat, c: nat, d: nat)
    requires a == 4 && b == a + a && c == b + b && d == c + c
    ensures Pow2(d) == TWO32
  {
    assert Pow2(a - 2) == 4 * Pow2(a - 4);
    Pow2Double(a, b, 16, 256);
    Pow2Double(b, c, 256, 0x10000);
    Pow2Double(c, d, 0x10000, TWO32);
  }

  lemma Pow2Widths(n: nat, m: nat)
    requires n == 32 && m == 63
    ensures Pow2(n) == TWO32 && Pow2(m) * 2 == TWO64
  {
    Pow2Of(4, 8, 16, n);
    Pow2Double(n, m + 1, TWO32, TWO64);
  }

  lemma {:induction false} Pow2Add(m: nat, n: nat)
    ensures Pow2(m + n) == Pow2(m) * Pow2(n)
    decreases n
  {
    if n > 0 {
      Pow2Add(m, n - 1);
    }
  }

  lemma BitsZero(x: u64)
    ensures x as bv64 == 0 <==> x == 0
  {
  }

  lemma OrZero(a: bv64, b: bv64)
    ensures a | b == 0 <==> a == 0 && b == 0
  {
  }

  lemma NumberZero(a: bv64)
    ensures a as int == 0 <==> a == 0
  {
  }

  lemma Or64Zero(x: u64, y: u64)
    ensures Or64(x, y) == 0 <==> x == 0 && y == 0
  {
    BitsZero(x);
    BitsZero(y);
    OrZero(x as bv64, y as bv64);
    NumberZero((x as bv64) | (y as bv64));
  }

  /** If the exact low word is zero, so is the untruncated product of the low halves. */
  lemma LowHalvesZero(x: u64, y: u64)
    requires x * y % TWO64 == 0
    ensures x % TWO32 == 0 || y % TWO32 == 0
  {
    var n, m := 32, 63;
    Pow2Widths(n, m);
    if x % TWO32 != 0 && y % TWO32 != 0 {
      TrailingZeros(x, y, n, n);
      Halved(x * y, Pow2(m));
    }
  }

  /** The test on the untruncated word decides whether the exact low word is zero. */
  lemma ZeroTestExact(x: u64, y: u64)
    ensures var p := Multiply(x, y);
      Or64(p.low, p.mid * TWO32) == 0 <==> x * y % TWO64 == 0
  {
    var p := Multiply(x, y);
    MultiplyExact(x, y);
    HalfProduct(x % TWO32, y % TWO32);
    DivBySpan(x * y, p.hi, p.mid * TWO32 + p.low % TWO32);
    Or64Zero(p.low, p.mid * TWO32);
    if x * y % TWO64 == 0 {
      LowHalvesZero(x, y);
      ZeroFactor(x % TWO32, y % TWO32);
    }
  }

  lemma ZeroFactor(a: int, b: int)
    ensures a == 0 || b == 0 ==> a * b == 0
  {
  }

  lemma Halved(v: nat, p: nat)
    requires p > 0 && v % (p * 2) == 0
    ensures v % p == 0
  {
    assert v == v / (p * 2) * (p * 2);
    RemainderIs(v, p, v / (p * 2) * 2, 0);
  }

  lemma MagnitudeExact(x: u64)
    ensures Magnitude(x) == if Signed(x) < 0 then -Signed(x) else Signed(x)
  {
  }

  lemma MagnitudeProduct(x: u64, y: u64)
    ensures Signed(x) * Signed(y) ==
      if (Signed(x) < 0) != (Signed(y) < 0) then -(Magnitude(x) * Magnitude(y)) else Magnitude(x) * Magnitude(y)
  {
    MagnitudeExact(x);
    MagnitudeExact(y);
    SignedProduct(Signed(x), Signed(y));
  }

  lemma SignedProduct(a: int, b: int)
    ensures -a * b == -(a * b) && a * -b == -(a * b) && -a * -b == a * b
  {
  }

  /** The high word of a negated 128-bit product. */
  lemma NegatedHigh(v: int, hi: int, lo: int)
    requires v == hi * TWO64 + lo && 0 <= hi < TWO64 && 0 <= lo < TWO64
    ensures Wrap64(-v / TWO64) == if lo == 0 then Add64(Not64(hi), 1) else Not64(hi)
  {
    if lo == 0 {
      DivBySpan(-v, -hi, 0);
    } else {
      DivBySpan(-v, -hi - 1, TWO64 - lo);
    }
  }

  lemma SmulhOfProduct(x: u64, y: u64, a: int, b: int, v: int)
    requires a == Magnitude(x) && b == Magnitude(y) && v == a * b
    requires Signed(x) * Signed(y) == if (Signed(x) < 0) != (Signed(y) < 0) then -v else v
    ensures Smulh(x, y) == Wrap64(Signed(x) * Signed(y) / TWO64)
  {
    var p := Multiply(a, b);
    MultiplyExact(a, b);
    ZeroTestExact(a, b);
    var lo := p.mid * TWO32 + p.low % TWO32;
    DivBySpan(v, p.hi, lo);
    NegatedHigh(v, p.hi, lo);
  }

  /** SMULH is the floor of the signed product by 2^64, as a 64-bit word. */
  lemma SmulhExact(x: u64, y: u64)
    ensures Smulh(x, y) == Wrap64(Signed(x) * Signed(y) / TWO64)
  {
    MagnitudeProduct(x, y);
    SmulhOfProduct(x, y, Magnitude(x), Magnitude(y), Magnitude(x) * Magnitude(y));
  }
}
