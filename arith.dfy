/** Integer arithmetic shared by every stage: powers, Euclidean division
    facts, bit strings read most-significant bit first, bit lengths,
    binomial coefficients, Python's XOR on integers, gcd and the modular
    inverse the library computes. */
module Arith {
  import opened Wrappers

  /** One emitted bit. */
  type Bit = b: int | 0 <= b <= 1

  function Pow(b: int, e: nat): (r: int)
    ensures b > 0 ==> r > 0
    ensures b >= 0 ==> r >= 0
  {
    if e == 0 then 1 else b * Pow(b, e - 1)
  }

  lemma {:induction false} PowAdd(b: int, e1: nat, e2: nat)
    ensures Pow(b, e1 + e2) == Pow(b, e1) * Pow(b, e2)
  {
    if e1 > 0 {
      PowAdd(b, e1 - 1, e2);
      calc {
        Pow(b, e1 + e2);
        b * Pow(b, e1 - 1 + e2);
        b * (Pow(b, e1 - 1) * Pow(b, e2));
        { MulAssoc(b, Pow(b, e1 - 1), Pow(b, e2)); }
        (b * Pow(b, e1 - 1)) * Pow(b, e2);
      }
    }
  }

  lemma {:induction false} PowMul(b: int, e1: nat, e2: nat)
    ensures Pow(b, e1 * e2) == Pow(Pow(b, e1), e2)
  {
    if e2 > 0 {
      PowMul(b, e1, e2 - 1);
      assert e1 * e2 == e1 * (e2 - 1) + e1;
      PowAdd(b, e1 * (e2 - 1), e1);
    }
  }

  lemma {:induction false} PowProduct(a: int, b: int, e: nat)
    ensures Pow(a * b, e) == Pow(a, e) * Pow(b, e)
  {
    if e > 0 {
      PowProduct(a, b, e - 1);
      MulSwapMiddle(a, b, Pow(a, e - 1), Pow(b, e - 1));
    }
  }

  lemma MulSwapMiddle(a: int, b: int, x: int, y: int)
    ensures (a * b) * (x * y) == (a * x) * (b * y)
  {
    MulAssoc(a, b, x * y);
    MulAssoc(b, x, y);
    assert b * x == x * b;
    MulAssoc(x, b, y);
    MulAssoc(a, x, b * y);
  }

  lemma {:induction false} PowOne(e: nat)
    ensures Pow(1, e) == 1
  {
    if e > 0 {
      PowOne(e - 1);
    }
  }

  lemma {:induction false} PowMonotone(b: int, e1: nat, e2: nat)
    requires b >= 1 && e1 <= e2
    ensures Pow(b, e1) <= Pow(b, e2)
  {
    if e2 > e1 {
      PowMonotone(b, e1, e2 - 1);
      MulMonotone(1, b, Pow(b, e2 - 1));
    }
  }

  lemma {:induction false} PowStrict(b: int, e1: nat, e2: nat)
    requires b >= 2 && e1 < e2
    ensures Pow(b, e1) < Pow(b, e2)
  {
    PowMonotone(b, e1, e2 - 1);
    MulMonotone(1, b, Pow(b, e2 - 1));
    assert Pow(b, e2 - 1) < b * Pow(b, e2 - 1);
  }

  lemma MulPositive(a: int, b: int)
    requires a > 0 && b > 0
    ensures a * b > 0
  {
  }

  lemma MulAssoc(a: int, b: int, c: int)
    ensures a * (b * c) == (a * b) * c
  {
  }

  lemma MulMonotone(a: int, b: int, c: int)
    requires a <= b && c >= 0
    ensures a * c <= b * c
  {
  }

  /** Division with a positive divisor has exactly one quotient and remainder. */
  lemma DivModUnique(x: int, n: int, q: int, r: int)
    requires n > 0 && 0 <= r < n && x == n * q + r
    ensures x / n == q && x % n == r
  {
    var q0, r0 := x / n, x % n;
    assert n * q0 + r0 == n * q + r;
    if q0 > q {
      MulMonotone(1, q0 - q, n);
    } else if q0 < q {
      MulMonotone(1, q - q0, n);
    }
  }

  lemma DividesMultiple(m: int, a: int, k: int)
    requires a > 0 && m == a * k
    ensures m % a == 0 && m / a == k
  {
    DivModUnique(m, a, k, 0);
  }

  lemma ExactQuotient(x: int, n: int)
    requires n > 0 && x % n == 0
    ensures x == n * (x / n)
  {
  }

  lemma DividesTransitive(a: int, b: int, c: int)
    requires a > 0 && b > 0 && b % a == 0 && c % b == 0
    ensures c % a == 0
  {
    var x, y := b / a, c / b;
    assert b == a * x && c == b * y;
    MulAssoc(a, x, y);
    DividesMultiple(c, a, x * y);
  }

  lemma ModAddMultiple(x: int, k: int, n: int)
    requires n > 0
    ensures (x + n * k) % n == x % n
    ensures (x + n * k) / n == x / n + k
  {
    DivModUnique(x + n * k, n, x / n + k, x % n);
  }

  lemma ModMulLeft(a: int, b: int, n: int)
    requires n > 0
    ensures ((a % n) * b) % n == (a * b) % n
  {
    var q := a / n;
    assert a * b == (a % n) * b + n * (q * b);
    ModAddMultiple((a % n) * b, q * b, n);
  }

  lemma ModMul(a: int, b: int, n: int)
    requires n > 0
    ensures ((a % n) * (b % n)) % n == (a * b) % n
  {
    ModMulLeft(a, b % n, n);
    ModMulLeft(b, a, n);
    assert a * (b % n) == (b % n) * a;
  }

  lemma ModAdd(a: int, b: int, n: int)
    requires n > 0
    ensures ((a % n) + (b % n)) % n == (a + b) % n
  {
    var qa, qb := a / n, b / n;
    assert a + b == (a % n) + (b % n) + n * (qa + qb) by {
      assert a == n * qa + a % n;
      assert b == n * qb + b % n;
      assert n * qa + n * qb == n * (qa + qb);
    }
    ModAddMultiple((a % n) + (b % n), qa + qb, n);
  }

  lemma ModSub(a: int, b: int, n: int)
    requires n > 0
    ensures (a - b) % n == 0 <==> a % n == b % n
  {
    var qa, qb, ra, rb := a / n, b / n, a % n, b % n;
    assert a - b == n * (qa - qb) + (ra - rb) by {
      assert a == n * qa + ra;
      assert b == n * qb + rb;
      assert n * qa - n * qb == n * (qa - qb);
    }
    if ra >= rb {
      DivModUnique(a - b, n, qa - qb, ra - rb);
    } else {
      assert a - b == n * (qa - qb - 1) + (ra - rb + n);
      DivModUnique(a - b, n, qa - qb - 1, ra - rb + n);
    }
  }

  /** gmpy2.powmod for a positive modulus: the power reduced into [0, n). */
  function PowMod(b: int, e: nat, n: int): (r: int)
    requires n > 0
    ensures 0 <= r < n
  {
    Pow(b, e) % n
  }

  lemma {:induction false} PowModBase(b: int, e: nat, n: int)
    requires n > 0
    ensures Pow(b % n, e) % n == Pow(b, e) % n
  {
    if e > 0 {
      PowModBase(b, e - 1, n);
      calc {
        Pow(b % n, e) % n;
        ((b % n) * Pow(b % n, e - 1)) % n;
        { ModMul(b % n, Pow(b % n, e - 1), n); }
        (((b % n) % n) * (Pow(b % n, e - 1) % n)) % n;
        (((b % n) % n) * (Pow(b, e - 1) % n)) % n;
        { ModMul(b % n, Pow(b, e - 1), n); }
        ((b % n) * Pow(b, e - 1)) % n;
        { ModMulLeft(b, Pow(b, e - 1), n); }
        Pow(b, e) % n;
      }
    }
  }

  /** Squaring a reduced power doubles the exponent. */
  lemma PowModSquare(b: int, e: nat, n: int)
    requires n > 0
    ensures (PowMod(b, e, n) * PowMod(b, e, n)) % n == PowMod(b, 2 * e, n)
  {
    ModMul(Pow(b, e), Pow(b, e), n);
    PowAdd(b, e, e);
  }

  /** x squared i times, each square reduced modulo n. */
  function Squarings(x: int, i: nat, n: int): int
    requires n > 0
  {
    if i == 0 then x else (Squarings(x, i - 1, n) * Squarings(x, i - 1, n)) % n
  }

  lemma {:induction false} SquaringsStayOne(x: int, i: nat, j: nat, n: int)
    requires n > 1 && i <= j && Squarings(x, i, n) == 1
    ensures Squarings(x, j, n) == 1
    decreases j
  {
    if j > i {
      SquaringsStayOne(x, i, j - 1, n);
    }
  }

  /** The i-th squaring of b^t is b^(2^i * t), all modulo n. */
  lemma {:induction false} SquaringsArePowers(b: int, t: nat, i: nat, n: int)
    requires n > 0
    ensures Squarings(PowMod(b, t, n), i, n) == PowMod(b, Pow(2, i) * t, n)
  {
    if i > 0 {
      SquaringsArePowers(b, t, i - 1, n);
      var h := Pow(2, i - 1);
      assert Pow(2, i) == 2 * h;
      MulAssoc(2, h, t);
      PowModSquare(b, h * t, n);
    }
  }

  /** Squaring a times and then b times is squaring a + b times. */
  lemma {:induction false} SquaringsAdd(x: int, a: nat, b: nat, n: int)
    requires n > 0
    ensures Squarings(Squarings(x, a, n), b, n) == Squarings(x, a + b, n)
  {
    if b > 0 {
      SquaringsAdd(x, a, b - 1, n);
    }
  }

  /** If b^phi = 1 (mod n), then b^(phi * k) = 1 (mod n). */
  lemma {:induction false} PowModMultipleOfOrder(b: int, phi: nat, k: nat, n: int)
    requires n > 1 && PowMod(b, phi, n) == 1
    ensures PowMod(b, phi * k, n) == 1
  {
    DivModUnique(1, n, 0, 1);
    if k > 0 {
      PowModMultipleOfOrder(b, phi, k - 1, n);
      var e1: nat := phi * (k - 1);
      assert e1 + phi == phi * k;
      PowAdd(b, e1, phi);
      var A, B := Pow(b, e1), Pow(b, phi);
      assert A % n == 1 && B % n == 1;
      ModMul(A, B, n);
      assert Pow(b, phi * k) == A * B;
      assert (A * B) % n == (1 * 1) % n;
    } else {
      assert phi * k == 0;
      assert Pow(b, phi * k) == 1;
    }
  }

  /** If b^phi = 1 (mod n), exponents of b count modulo phi. */
  lemma PowModReduceExponent(b: int, e: nat, phi: nat, n: int)
    requires n > 1 && phi > 0 && PowMod(b, phi, n) == 1
    ensures PowMod(b, e % phi, n) == PowMod(b, e, n)
  {
    var k: nat, r: nat := e / phi, e % phi;
    var e1: nat := phi * k;
    assert e1 + r == e;
    PowModMultipleOfOrder(b, phi, k, n);
    PowAdd(b, e1, r);
    var A, R := Pow(b, e1), Pow(b, r);
    assert A % n == 1;
    ModMul(A, R, n);
    assert Pow(b, e) == A * R;
    DivModUnique(R % n, n, 0, R % n);
    assert (A * R) % n == (1 * (R % n)) % n;
  }

  /** Number of binary digits of a non-negative integer (gmpy2.bit_length). */
  function BitLength(x: nat): nat
  {
    if x == 0 then 0 else 1 + BitLength(x / 2)
  }

  lemma {:induction false} BitLengthBounds(x: nat)
    requires x > 0
    ensures BitLength(x) >= 1
    ensures Pow(2, BitLength(x) - 1) <= x < Pow(2, BitLength(x))
  {
    if x > 1 {
      BitLengthBounds(x / 2);
    }
  }

  /** The bit length is pinned down by the power-of-two interval holding x. */
  lemma BitLengthIs(x: nat, k: nat)
    requires k >= 1 && Pow(2, k - 1) <= x < Pow(2, k)
    ensures BitLength(x) == k
  {
    BitLengthBounds(x);
    var b := BitLength(x);
    if b < k {
      PowMonotone(2, b, k - 1);
    } else if b > k {
      PowMonotone(2, k, b - 1);
    }
  }

  lemma {:induction false} BitLengthMonotone(x: nat, y: nat)
    requires 0 < x <= y
    ensures BitLength(x) <= BitLength(y)
  {
    if x > 1 {
      BitLengthMonotone(x / 2, y / 2);
    }
  }

  /** The integer a bit list denotes when folded most-significant bit first,
      as in `p = (p << 1) | bit`. */
  function FromBits(bits: seq<Bit>): nat
  {
    if bits == [] then 0 else 2 * FromBits(bits[..|bits| - 1]) + bits[|bits| - 1]
  }

  lemma {:induction false} FromBitsBounds(bits: seq<Bit>)
    ensures FromBits(bits) < Pow(2, |bits|)
    ensures |bits| > 0 && bits[0] == 1 ==> Pow(2, |bits| - 1) <= FromBits(bits)
  {
    if bits != [] {
      var init := bits[..|bits| - 1];
      FromBitsBounds(init);
      if |bits| > 1 {
        assert init[0] == bits[0];
      }
    }
  }

  /** Appending a bit shifts the integer left and puts the bit at the bottom. */
  lemma FromBitsAppend(bits: seq<Bit>, b: Bit)
    ensures FromBits(bits + [b]) == 2 * FromBits(bits) + b
  {
    assert (bits + [b])[..|bits|] == bits;
  }

  /** A leading one adds 2^|bits| to the integer the bits denote. */
  lemma {:induction false} FromBitsLeadingOne(bits: seq<Bit>)
    ensures FromBits([1] + bits) == Pow(2, |bits|) + FromBits(bits)
  {
    if bits != [] {
      var init, last := bits[..|bits| - 1], bits[|bits| - 1];
      FromBitsLeadingOne(init);
      assert [1] + bits == ([1] + init) + [last];
      FromBitsAppend([1] + init, last);
    }
  }

  /** A list of n bits that starts with a one denotes an n-bit integer. */
  lemma LeadingOneBitLength(bits: seq<Bit>)
    requires |bits| > 0 && bits[0] == 1
    ensures BitLength(FromBits(bits)) == |bits|
  {
    FromBitsBounds(bits);
    BitLengthIs(FromBits(bits), |bits|);
  }

  /** The two lowest bits of the list are the integer's residue modulo 4. */
  lemma FromBitsLowBits(bits: seq<Bit>)
    requires |bits| >= 2
    ensures FromBits(bits) % 4 == 2 * (bits[|bits| - 2] as int) + bits[|bits| - 1]
  {
    var init := bits[..|bits| - 1];
    assert init[..|init| - 1] == bits[..|bits| - 2];
    var x := FromBits(bits[..|bits| - 2]);
    var low: int := 2 * (bits[|bits| - 2] as int) + bits[|bits| - 1];
    assert FromBits(bits) == 4 * x + low;
    DivModUnique(FromBits(bits), 4, x, low);
  }

  /** Binomial coefficient of two naturals, by Pascal's rule. */
  function BinomNat(n: nat, k: nat): nat
  {
    if k == 0 then 1 else if n == 0 then 0 else BinomNat(n - 1, k - 1) + BinomNat(n - 1, k)
  }

  /** gmpy2.bincoef: for a negative top it takes the generalised
      coefficient (-1)^k C(k - n - 1, k). */
  function Binom(n: int, k: nat): int
  {
    if n >= 0 then BinomNat(n, k)
    else if k % 2 == 0 then BinomNat(k - n - 1, k)
    else 0 - BinomNat(k - n - 1, k) as int
  }

  lemma {:induction false} BinomZero(n: nat, k: nat)
    requires n < k
    ensures BinomNat(n, k) == 0
  {
    if n > 0 {
      BinomZero(n - 1, k - 1);
      BinomZero(n - 1, k);
    }
  }

  lemma {:induction false} BinomPositive(n: nat, k: nat)
    requires k <= n
    ensures BinomNat(n, k) >= 1
  {
    if k > 0 {
      BinomPositive(n - 1, k - 1);
    }
  }

  /** C(n, k) grows with n. */
  lemma {:induction false} BinomMonotone(n1: nat, n2: nat, k: nat)
    requires n1 <= n2
    ensures BinomNat(n1, k) <= BinomNat(n2, k)
    decreases n2
  {
    if n1 < n2 {
      BinomMonotone(n1, n2 - 1, k);
    }
  }

  /** Python's `^` on integers: bitwise XOR of the infinite two's-complement
      representations. */
  function IntXor(a: int, b: int): int
    decreases (if a < 0 then -a else a) + (if b < 0 then -b else b)
  {
    if a == 0 then b
    else if b == 0 then a
    else if a == -1 then -1 - b
    else if b == -1 then -1 - a
    else 2 * IntXor(a / 2, b / 2) + (a % 2 + b % 2) % 2
  }

  function GcdNat(a: nat, b: nat): nat
    decreases b
  {
    if b == 0 then a else GcdNat(b, a % b)
  }

  /** gmpy2.gcd: the non-negative greatest common divisor. */
  function Gcd(a: int, b: int): nat
  {
    GcdNat(if a < 0 then -a else a, if b < 0 then -b else b)
  }

  lemma {:induction false} GcdNatDivides(a: nat, b: nat)
    ensures GcdNat(a, b) == 0 <==> a == 0 && b == 0
    ensures GcdNat(a, b) > 0 ==> a % GcdNat(a, b) == 0 && b % GcdNat(a, b) == 0
    decreases b
  {
    if b > 0 {
      GcdNatDivides(b, a % b);
      var g := GcdNat(b, a % b);
      var q := a / b;
      assert a == b * q + a % b;
      var u, v := b / g, (a % b) / g;
      assert b == g * u;
      assert a % b == g * v;
      assert a == g * (u * q + v) by {
        assert b * q == g * u * q;
      }
      DivModUnique(a, g, u * q + v, 0);
    }
  }

  /** A gcd of 1 leaves no common factor above 1. */
  lemma GcdOneNoCommonFactor(a: int, b: int, c: int)
    requires Gcd(a, b) == 1 && c > 1
    ensures !(a % c == 0 && b % c == 0)
  {
    var a', b' := if a < 0 then -a else a, if b < 0 then -b else b;
    if a % c == 0 && b % c == 0 {
      assert a' % c == 0 by { if a < 0 { DivModUnique(-a, c, -(a / c), 0); } }
      assert b' % c == 0 by { if b < 0 { DivModUnique(-b, c, -(b / c), 0); } }
      CommonFactorDividesGcd(a', b', c);
    }
  }

  lemma {:induction false} CommonFactorDividesGcd(a: nat, b: nat, c: int)
    requires c > 0 && a % c == 0 && b % c == 0
    ensures GcdNat(a, b) % c == 0
    decreases b
  {
    if b > 0 {
      var q := a / b;
      assert a == b * q + a % b;
      assert (a % b) % c == 0 by {
        var ka, kb := a / c, b / c;
        assert a == c * ka && b == c * kb;
        assert a % b == c * (ka - kb * q);
        DivModUnique(a % b, c, ka - kb * q, 0);
      }
      CommonFactorDividesGcd(b, a % b, c);
    }
  }

  /** A prime: at least 2, with no divisor strictly between 1 and itself. */
  ghost predicate IsPrime(n: int)
  {
    n >= 2 && forall d :: 2 <= d < n ==> n % d != 0
  }

  /** The extended Euclidean algorithm: x and y with a x + b y = gcd(a, b). */
  function Bezout(a: nat, b: nat): (xy: (int, int))
    ensures a * xy.0 + b * xy.1 == GcdNat(a, b)
    decreases b
  {
    if b == 0 then (1, 0)
    else
      var xy := Bezout(b, a % b);
      BezoutStep(a, b, xy.0, xy.1);
      (xy.1, xy.0 - (a / b) * xy.1)
  }

  lemma BezoutStep(a: int, b: int, x: int, y: int)
    requires b > 0
    ensures a * y + b * (x - (a / b) * y) == b * x + (a % b) * y
  {
    var q, r := a / b, a % b;
    assert a == b * q + r;
    assert a * y == (b * q) * y + r * y;
    assert b * (x - q * y) == b * x - (b * q) * y;
  }

  /** A positive divisor of a positive integer is at most that integer. */
  lemma DivisorAtMost(d: int, n: int)
    requires d > 0 && n > 0 && n % d == 0
    ensures d <= n
  {
    var k := n / d;
    ExactQuotient(n, d);
    if k <= 0 {
      MulMonotone(k, 0, d);
    }
    MulMonotone(1, k, d);
  }

  /** Euclid's lemma, contrapositive: a prime dividing neither factor does
      not divide the product. */
  lemma ProductNotDivisible(f: int, a: nat, b: nat)
    requires IsPrime(f) && a % f != 0 && b % f != 0
    ensures (a * b) % f != 0
  {
    var g := GcdNat(f, a);
    GcdNatDivides(f, a);
    DivisorAtMost(g, f);
    assert g == 1;
    var xy := Bezout(f, a);
    var t, rem := (a * b) / f, (a * b) % f;
    var k := b * xy.0 + t * xy.1;
    EuclidStep(f, a, b, xy.0, xy.1, t, rem);
    if rem == 0 {
      DividesMultiple(b, f, k);
    }
  }

  lemma EuclidStep(f: int, a: int, b: int, x: int, y: int, t: int, rem: int)
    requires f * x + a * y == 1 && a * b == f * t + rem
    ensures b == f * (b * x + t * y) + rem * y
  {
    calc {
      b;
      b * (f * x + a * y);
      f * (b * x) + (a * b) * y;
      f * (b * x) + (f * t + rem) * y;
      f * (b * x + t * y) + rem * y;
    }
  }

  /** Every integer from 2 on has a prime divisor. */
  lemma {:induction false} PrimeFactorExists(t: int) returns (g: int)
    requires t >= 2
    ensures IsPrime(g) && t % g == 0
    decreases t
  {
    if IsPrime(t) {
      g := t;
      DividesMultiple(t, t, 1);
    } else {
      var d :| 2 <= d < t && t % d == 0;
      g := PrimeFactorExists(d);
      DividesTransitive(g, d, t);
    }
  }

  /** If b^e = 1 and b^m = 1 (mod n), then b^gcd(e, m) = 1 (mod n): the
      exponents of 1 are closed under Euclid's algorithm. */
  lemma {:induction false} PowModGcd(b: int, e: nat, m: nat, n: int)
    requires n > 1 && PowMod(b, e, n) == 1 && PowMod(b, m, n) == 1
    ensures PowMod(b, GcdNat(e, m), n) == 1
    decreases m
  {
    if m > 0 {
      PowModReduceExponent(b, e, m, n);
      PowModGcd(b, m, e % m, n);
    }
  }

  /** Linear search for an inverse of a modulo m among 0 <= y < m, from y up. */
  function InverseFrom(a: int, m: int, y: nat): (r: Option<int>)
    requires m > 1 && y <= m
    ensures r.Some? ==> y <= r.value < m && (a * r.value) % m == 1
    ensures r.None? ==> forall z :: y <= z < m ==> (a * z) % m != 1
    decreases m - y
  {
    if y == m then None
    else if (a * y) % m == 1 then Some(y)
    else InverseFrom(a, m, y + 1)
  }

  /** gmpy2.invert(a, m): the inverse of a modulo m, or None where the
      library raises because none exists. */
  function ModInverse(a: int, m: int): (r: Option<int>)
    requires m > 1
    ensures r.Some? ==> 0 <= r.value < m && (a * r.value) % m == 1
    ensures r.None? ==> forall z :: 0 <= z < m ==> (a * z) % m != 1
  {
    InverseFrom(a, m, 0)
  }

  lemma MulInverseCancels(num: int, den: int, i: int, m: int)
    requires m > 1 && (den * i) % m == 1
    ensures (((num * i) % m) * den) % m == num % m
  {
    var x, di := num * i, den * i;
    ModMulLeft(x, den, m);
    assert x * den == num * di by {
      MulAssoc(num, i, den);
      assert i * den == den * i;
    }
    ModMul(num, di, m);
    assert (num % m) * (di % m) == num % m;
    DivModUnique(num % m, m, 0, num % m);
  }

  /** The expression `(num * invert(den, m)) % m` the source uses for a
      quotient in the field: the result times den is num again. */
  function ModDiv(num: int, den: int, m: int): (r: Option<int>)
    requires m > 1
    ensures r.Some? ==> 0 <= r.value < m && (r.value * den) % m == num % m
    ensures r.None? <==> forall z :: 0 <= z < m ==> (den * z) % m != 1
  {
    match ModInverse(den, m)
    case None => None
    case Some(i) =>
      MulInverseCancels(num, den, i, m);
      Some((num * i) % m)
  }
}
