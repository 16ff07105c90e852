/** The number-theoretic subroutines every stage shares: the deterministic
    Miller-Rabin test over a fixed table of bases, the strong-strong prime
    predicates built on it, the Edwards addition law, the Edwards to
    Montgomery to Weierstrass parameter substitutions, the CM field
    discriminant and the embedding degree. The factorisation the library
    computes is an input here (a list of prime powers whose product is the
    factored integer). */
module Subroutines {
  import opened Wrappers
  import opened Arith

  /** The 256 primes up to 1619, the bases of the test in table order,
      written as 16 rows of 16. */
  function TableRow(r: nat): (row: seq<int>)
    requires r < 16
    ensures |row| == 16
    ensures forall i :: 0 <= i < 16 ==> TableEntry(row[i])
  {
    if r < 4 then RowsFrom0(r)
    else if r < 8 then RowsFrom4(r - 4)
    else if r < 12 then RowsFrom8(r - 8)
    else RowsFrom12(r - 12)
  }

  function RowsFrom0(r: nat): (row: seq<int>)
    requires r < 4
    ensures |row| == 16
    ensures forall i :: 0 <= i < 16 ==> TableEntry(row[i])
  {
    if r == 0 then [2, 3, 5, 7, 11, 13, 17, 19, 23, 29, 31, 37, 41, 43, 47, 53]
    else if r == 1 then [59, 61, 67, 71, 73, 79, 83, 89, 97, 101, 103, 107, 109, 113, 127, 131]
    else if r == 2 then [137, 139, 149, 151, 157, 163, 167, 173, 179, 181, 191, 193, 197, 199, 211, 223]
    else [227, 229, 233, 239, 241, 251, 257, 263, 269, 271, 277, 281, 283, 293, 307, 311]
  }

  function RowsFrom4(r: nat): (row: seq<int>)
    requires r < 4
    ensures |row| == 16
    ensures forall i :: 0 <= i < 16 ==> TableEntry(row[i])
  {
    if r == 0 then [313, 317, 331, 337, 347, 349, 353, 359, 367, 373, 379, 383, 389, 397, 401, 409]
    else if r == 1 then [419, 421, 431, 433, 439, 443, 449, 457, 461, 463, 467, 479, 487, 491, 499, 503]
    else if r == 2 then [509, 521, 523, 541, 547, 557, 563, 569, 571, 577, 587, 593, 599, 601, 607, 613]
    else [617, 619, 631, 641, 643, 647, 653, 659, 661, 673, 677, 683, 691, 701, 709, 719]
  }

  function RowsFrom8(r: nat): (row: seq<int>)
    requires r < 4
    ensures |row| == 16
    ensures forall i :: 0 <= i < 16 ==> TableEntry(row[i])
  {
    if r == 0 then [727, 733, 739, 743, 751, 757, 761, 769, 773, 787, 797, 809, 811, 821, 823, 827]
    else if r == 1 then [829, 839, 853, 857, 859, 863, 877, 881, 883, 887, 907, 911, 919, 929, 937, 941]
    else if r == 2 then [947, 953, 967, 971, 977, 983, 991, 997, 1009, 1013, 1019, 1021, 1031, 1033, 1039, 1049]
    else [1051, 1061, 1063, 1069, 1087, 1091, 1093, 1097, 1103, 1109, 1117, 1123, 1129, 1151, 1153, 1163]
  }

  function RowsFrom12(r: nat): (row: seq<int>)
    requires r < 4
    ensures |row| == 16
    ensures forall i :: 0 <= i < 16 ==> TableEntry(row[i])
  {
    if r == 0 then [1171, 1181, 1187, 1193, 1201, 1213, 1217, 1223, 1229, 1231, 1237, 1249, 1259, 1277, 1279, 1283]
    else if r == 1 then [1289, 1291, 1297, 1301, 1303, 1307, 1319, 1321, 1327, 1361, 1367, 1373, 1381, 1399, 1409, 1423]
    else if r == 2 then [1427, 1429, 1433, 1439, 1447, 1451, 1453, 1459, 1471, 1481, 1483, 1487, 1489, 1493, 1499, 1511]
    else [1523, 1531, 1543, 1549, 1553, 1559, 1567, 1571, 1579, 1583, 1597, 1601, 1607, 1609, 1613, 1619]
  }

  /** The number of entries in the table. */
  const TABLE_SIZE: nat := 256

  /** Entry j of the table (FIRST_PRIMES[j] in the library). */
  function FirstPrime(j: nat): (b: int)
    requires j < TABLE_SIZE
    ensures TableEntry(b)
  {
    TableRow(j / 16)[j % 16]
  }

  /** The largest table entry: below it only table entries pass. */
  const TABLE_MAX: int := 1619

  /** `n in FIRST_PRIMES`, as the scan of the table from position i on. */
  predicate InTableFrom(n: int, i: nat)
    decreases TABLE_SIZE - i
  {
    i < TABLE_SIZE && (FirstPrime(i) == n || InTableFrom(n, i + 1))
  }

  predicate InTable(n: int)
  {
    InTableFrom(n, 0)
  }

  /** An entry of the table: a number in [2, TABLE_MAX] that is odd unless it is 2. */
  predicate TableEntry(x: int)
  {
    2 <= x <= TABLE_MAX && (x % 2 == 1 || x == 2)
  }

  lemma {:induction false} InTableFromEntry(n: int, i: nat)
    requires InTableFrom(n, i)
    ensures TableEntry(n)
    decreases TABLE_SIZE - i
  {
    if FirstPrime(i) != n {
      InTableFromEntry(n, i + 1);
    }
  }

  /** Table membership bounds n: 2 <= n <= TABLE_MAX, and 2 is the only even entry. */
  lemma InTableBounds(n: int)
    requires InTable(n)
    ensures TableEntry(n)
  {
    InTableFromEntry(n, 0);
  }

  /** The first k table entries. */
  function FirstPrimes(k: nat): (bs: seq<int>)
    requires k <= TABLE_SIZE
    ensures |bs| == k && forall j :: 0 <= j < k ==> bs[j] == FirstPrime(j)
  {
    if k == 0 then [] else FirstPrimes(k - 1) + [FirstPrime(k - 1)]
  }

  /** The number of bases every caller uses (the default argument). */
  const DEFAULT_BASES: nat := 64

  // ---------------------------------------------------------------------
  // Factorisations, as the factoring oracle returns them

  /** One row `[p, m]` of a factorisation: the prime p to the power m. */
  datatype PrimePower = PrimePower(prime: int, mult: nat)

  function FactorProduct(fs: seq<PrimePower>): int
  {
    if fs == [] then 1 else Pow(fs[0].prime, fs[0].mult) * FactorProduct(fs[1..])
  }

  /** What the model relies on from the factoring oracle: rows in strictly
      ascending order, positive multiplicities, factors of at least 2 (a
      leading -1 of multiplicity 1 carries the sign of a negative input),
      and product equal to the factored integer. */
  predicate IsFactorization(fs: seq<PrimePower>, n: int)
  {
    && (forall i :: 0 <= i < |fs| ==> fs[i].mult >= 1)
    && (forall i :: 0 <= i < |fs| ==> fs[i].prime >= 2 || (i == 0 && fs[i].prime == -1 && fs[i].mult == 1))
    && (forall i, j :: 0 <= i < j < |fs| ==> fs[i].prime < fs[j].prime)
    && FactorProduct(fs) == n
  }

  /** The same conditions for a positive integer: every factor is at least 2. */
  predicate IsPositiveFactorization(fs: seq<PrimePower>, n: int)
  {
    IsFactorization(fs, n) && forall i :: 0 <= i < |fs| ==> fs[i].prime >= 2
  }

  /** What the model relies on from the factoring oracle `factor(n)`:
      factorisations of every non-zero integer, with no sign row for a
      positive one. */
  ghost predicate FactorOracle(factor: int -> seq<PrimePower>)
  {
    && (forall n :: n > 0 ==> IsPositiveFactorization(factor(n), n))
    && (forall n :: n < 0 ==> IsFactorization(factor(n), n))
  }

  lemma {:induction false} FactorProductPositive(fs: seq<PrimePower>)
    requires forall i :: 0 <= i < |fs| ==> fs[i].prime >= 2
    ensures FactorProduct(fs) >= 1
  {
    if fs != [] {
      FactorProductPositive(fs[1..]);
      MulMonotone(1, Pow(fs[0].prime, fs[0].mult), FactorProduct(fs[1..]));
    }
  }

  // ---------------------------------------------------------------------
  // Deterministic Miller-Rabin test

  /** Splits m > 0 as 2^s * t with t odd, by repeated halving. */
  function OddPart(m: int): (st: (nat, int))
    requires m > 0
    ensures st.1 > 0 && st.1 % 2 == 1 && m == Pow(2, st.0) * st.1
    ensures m % 2 == 0 ==> st.0 >= 1
  {
    if m % 2 == 1 then (0, m)
    else
      var (s, t) := OddPart(m / 2);
      (s + 1, t)
  }

  /** One base of the strong test: b^t is 1, or one of the first s
      squarings of it is n - 1, all modulo n. */
  predicate PassesBase(b: int, n: int, s: nat, t: nat)
    requires n > 0
  {
    var x := PowMod(b, t, n);
    x == 1 || exists i :: 0 <= i < s && Squarings(x, i, n) == n - 1
  }

  /** deterministic_is_pseudo_prime(n, k): table entries pass, anything else
      below the largest entry fails, even numbers fail, and an odd n above
      the table passes the strong test for the first k table bases. */
  predicate IsPseudoPrime(n: int, k: nat)
    requires k <= TABLE_SIZE
  {
    if InTable(n) then true
    else if n < TABLE_MAX then false
    else if n % 2 == 0 then false
    else
      var (s, t) := OddPart(n - 1);
      forall j :: 0 <= j < k ==> PassesBase(FirstPrime(j), n, s, t)
  }

  /** The predicate the pipeline uses: the default 64 bases. */
  predicate IsPrimeCandidate(n: int)
  {
    IsPseudoPrime(n, DEFAULT_BASES)
  }

  /** The condition on one base, stated with powers rather than squarings:
      b^t = 1, or b^(2^i * t) = n - 1 for some i < s, all modulo n. */
  predicate PowerCondition(b: int, n: int, s: nat, t: nat)
    requires n > 0
  {
    PowMod(b, t, n) == 1 || exists i :: 0 <= i < s && PowMod(b, Pow(2, i) * t, n) == n - 1
  }

  lemma PassesBaseAsPowers(b: int, n: int, s: nat, t: nat)
    requires n > 0
    ensures PassesBase(b, n, s, t) <==> PowerCondition(b, n, s, t)
  {
    var x := PowMod(b, t, n);
    if exists i :: 0 <= i < s && Squarings(x, i, n) == n - 1 {
      var i :| 0 <= i < s && Squarings(x, i, n) == n - 1;
      SquaringsArePowers(b, t, i, n);
    }
    if exists i :: 0 <= i < s && PowMod(b, Pow(2, i) * t, n) == n - 1 {
      var i :| 0 <= i < s && PowMod(b, Pow(2, i) * t, n) == n - 1;
      SquaringsArePowers(b, t, i, n);
    }
  }

  /** The test as a statement about powers: an odd n above the table, with
      n - 1 = 2^s * t, passes iff every one of the first k bases meets
      PowerCondition. */
  lemma PseudoPrimeAsPowers(n: int, k: nat)
    requires k <= TABLE_SIZE && n > TABLE_MAX && n % 2 == 1
    ensures OddPart(n - 1).0 >= 1
    ensures IsPseudoPrime(n, k) <==>
      forall j :: 0 <= j < k ==> PowerCondition(FirstPrime(j), n, OddPart(n - 1).0, OddPart(n - 1).1)
  {
    DivModUnique(n - 1, 2, n / 2, 0);
    PseudoPrimeAboveTable(n, k);
    BasesAsPowers(n, k, OddPart(n - 1).0, OddPart(n - 1).1);
  }

  /** Above the table the test is the strong test on the first k bases. */
  lemma PseudoPrimeAboveTable(n: int, k: nat)
    requires k <= TABLE_SIZE && n > TABLE_MAX && n % 2 == 1
    ensures IsPseudoPrime(n, k) <==>
      forall j :: 0 <= j < k ==> PassesBase(FirstPrime(j), n, OddPart(n - 1).0, OddPart(n - 1).1)
  {
    if InTable(n) {
      InTableBounds(n);
    }
  }

  lemma BasesAsPowers(n: int, k: nat, s: nat, t: nat)
    requires k <= TABLE_SIZE && n > 0
    ensures (forall j :: 0 <= j < k ==> PassesBase(FirstPrime(j), n, s, t)) <==>
      forall j :: 0 <= j < k ==> PowerCondition(FirstPrime(j), n, s, t)
  {
    forall j | 0 <= j < k
      ensures PassesBase(FirstPrime(j), n, s, t) <==> PowerCondition(FirstPrime(j), n, s, t)
    {
      PassesBaseAsPowers(FirstPrime(j), n, s, t);
    }
  }

  /** Anything that passes is at least 2, and 2 is the only even one. */
  lemma PseudoPrimeAtLeastTwo(n: int, k: nat)
    requires k <= TABLE_SIZE && IsPseudoPrime(n, k)
    ensures n >= 2 && (n % 2 == 0 ==> n == 2)
  {
    if InTable(n) {
      InTableBounds(n);
    }
  }

  /** Below the largest entry the test is table membership: 0, 1, the
      negatives and every other number under 1619 fail. */
  lemma PseudoPrimeBelowTableMax(n: int, k: nat)
    requires k <= TABLE_SIZE && n < TABLE_MAX
    ensures IsPseudoPrime(n, k) <==> InTable(n)
  {
  }

  lemma CandidateAtLeastTwo(n: int)
    requires IsPrimeCandidate(n)
    ensures n >= 2 && (n % 2 == 0 ==> n == 2)
  {
    PseudoPrimeAtLeastTwo(n, DEFAULT_BASES);
  }

  /** The strong test for one base, as the source's inner loop runs it. */
  method StrongBaseTest(b: int, n: int, s: nat, t: nat) returns (pass: bool)
    requires n > 2 && s >= 1
    ensures pass == PassesBase(b, n, s, t)
  {
    var x := PowMod(b, t, n);
    ghost var x0 := x;
    var i := 0;
    if x != 1 {
      while x != n - 1
        invariant 0 <= i < s
        invariant x == Squarings(x0, i, n)
        invariant forall j :: 0 <= j < i ==> Squarings(x0, j, n) != n - 1
        decreases s - i
      {
        x := (x * x) % n;
        i := i + 1;
        if i == s || x == 1 {
          if x == 1 {
            forall j | i <= j < s
              ensures Squarings(x0, j, n) != n - 1
            {
              SquaringsStayOne(x0, i, j, n);
            }
          }
          return false;
        }
      }
    }
    return true;
  }

  /** The halving loop that writes m as 2^s * t with t odd. */
  method SplitOddPart(m: int) returns (s: nat, t: int)
    requires m > 0
    ensures (s, t) == OddPart(m)
  {
    s, t := 0, m;
    while t % 2 == 0
      invariant t > 0
      invariant OddPart(m) == (s + OddPart(t).0, OddPart(t).1)
      decreases t
    {
      s := s + 1;
      t := t / 2;
    }
  }

  /** deterministic_is_pseudo_prime(n, k) with its loops. */
  method DeterministicIsPseudoPrime(n: int, k: nat) returns (r: bool)
    requires k <= TABLE_SIZE
    ensures r == IsPseudoPrime(n, k)
  {
    if InTable(n) {
      return true;
    }
    if n < TABLE_MAX {
      return false;
    }
    if n % 2 == 0 {
      return false;
    }
    var s, t := SplitOddPart(n - 1);
    r := AllBasesPass(n, s, t, FirstPrimes(k));
  }

  /** The loop over the bases, stopping at the first that fails. */
  method AllBasesPass(n: int, s: nat, t: nat, bases: seq<int>) returns (r: bool)
    requires n > 2 && s >= 1
    ensures r == forall j :: 0 <= j < |bases| ==> PassesBase(bases[j], n, s, t)
  {
    var j := 0;
    while j < |bases|
      invariant 0 <= j <= |bases|
      invariant forall jj :: 0 <= jj < j ==> PassesBase(bases[jj], n, s, t)
    {
      var pass := StrongBaseTest(bases[j], n, s, t);
      if !pass {
        return false;
      }
      j := j + 1;
    }
    return true;
  }

  // ---------------------------------------------------------------------
  // Strong and strong-strong primes

  /** is_strong_prime: p and (p - 1) >> 1 both pass. */
  predicate IsStrongPrime(p: int)
  {
    if !IsPrimeCandidate(p) then false
    else IsPrimeCandidate((p - 1) / 2)
  }

  /** is_strong_strong_prime: p, p' = (p - 1) >> 1 and (p' - 1) >> 1 all pass. */
  predicate IsStrongStrongPrime(p: int)
  {
    if !IsPrimeCandidate(p) then false
    else
      var p1 := (p - 1) / 2;
      if !IsPrimeCandidate(p1) then false
      else IsPrimeCandidate((p1 - 1) / 2)
  }

  /** A strong strong prime is a strong prime p whose (p - 1) >> 1 is strong too. */
  lemma StrongStrongIsStrong(p: int)
    ensures IsStrongStrongPrime(p) <==> IsStrongPrime(p) && IsStrongPrime((p - 1) / 2)
  {
  }

  /** is_strong_strong_prime_generator: c, c' = (c << 1) + 1 and (c' << 1) + 1 all pass. */
  predicate IsStrongStrongPrimeGenerator(c: int)
  {
    if !IsPrimeCandidate(c) then false
    else
      var c1 := 2 * c + 1;
      if !IsPrimeCandidate(c1) then false
      else IsPrimeCandidate(2 * c1 + 1)
  }

  /** A generator c yields the strong-strong prime 4c + 3, since
      (4c + 2) >> 1 = 2c + 1 and (2c) >> 1 = c. */
  lemma GeneratorGivesStrongStrongPrime(c: int)
    ensures IsStrongStrongPrimeGenerator(c) <==>
      IsPrimeCandidate(c) && IsPrimeCandidate(2 * c + 1) && IsPrimeCandidate(4 * c + 3)
    ensures IsStrongStrongPrimeGenerator(c) ==> IsStrongStrongPrime(4 * c + 3)
  {
    assert (4 * c + 3 - 1) / 2 == 2 * c + 1;
    assert (2 * c + 1 - 1) / 2 == c;
  }

  // ---------------------------------------------------------------------
  // Edwards curves and parameter substitutions, all modulo p

  /** add_on_edwards: ((x1 y2 + x2 y1) / (1 + d x1 x2 y1 y2), (y1 y2 - x1 x2) / (1 - d x1 x2 y1 y2)),
      or None where a denominator has no inverse and the library raises. */
  function AddOnEdwards(x1: int, y1: int, x2: int, y2: int, d: int, p: int): (r: Option<(int, int)>)
    requires p > 1
    ensures r.Some? ==> 0 <= r.value.0 < p && 0 <= r.value.1 < p
    ensures r.Some? ==> (r.value.0 * (1 + d * x1 * x2 * y1 * y2)) % p == (x1 * y2 + x2 * y1) % p
    ensures r.Some? ==> (r.value.1 * (1 - d * x1 * x2 * y1 * y2)) % p == (y1 * y2 - x1 * x2) % p
    ensures r.None? <==>
      ModInverse(1 + d * x1 * x2 * y1 * y2, p).None? || ModInverse(1 - d * x1 * x2 * y1 * y2, p).None?
  {
    var x := ModDiv(x1 * y2 + x2 * y1, 1 + d * x1 * x2 * y1 * y2, p);
    var y := ModDiv(y1 * y2 - x1 * x2, 1 - d * x1 * x2 * y1 * y2, p);
    if x.None? || y.None? then None else Some((x.value, y.value))
  }

  lemma InverseOfOne(p: int)
    requires p > 1
    ensures ModInverse(1, p) == Some(1)
  {
    DivModUnique(0, p, 0, 0);
    DivModUnique(1, p, 0, 1);
    assert InverseFrom(1, p, 0) == InverseFrom(1, p, 1);
  }

  lemma ModDivByOne(num: int, p: int)
    requires p > 1 && 0 <= num < p
    ensures ModDiv(num, 1, p) == Some(num)
  {
    InverseOfOne(p);
    assert num * 1 == num;
    DivModUnique(num, p, 0, num);
  }

  /** (0, 1) is neutral: adding it to a reduced point gives the point back,
      and in particular doubling the identity gives the identity. */
  lemma IdentityIsNeutral(x: int, y: int, d: int, p: int)
    requires p > 1 && 0 <= x < p && 0 <= y < p
    ensures AddOnEdwards(x, y, 0, 1, d, p) == Some((x, y))
    ensures AddOnEdwards(0, 1, 0, 1, d, p) == Some((0, 1))
  {
    assert d * x * 0 == 0;
    assert d * x * 0 * y * 1 == 0;
    assert d * 0 * 0 * 1 * 1 == 0;
    assert x * 1 + 0 * y == x && y * 1 - x * 0 == y;
    ModDivByOne(x, p);
    ModDivByOne(y, p);
    ModDivByOne(0, p);
    ModDivByOne(1, p);
  }

  /** _montgomery_parameters_from_edwards_parameters: A = 2(a + d)/(a - d), B = 4/(a - d). */
  function MontgomeryFromEdwards(a: int, d: int, p: int): (r: Option<(int, int)>)
    requires p > 1
    ensures r.Some? ==> 0 <= r.value.0 < p && 0 <= r.value.1 < p
    ensures r.Some? ==> (r.value.0 * (a - d)) % p == (2 * (a + d)) % p
    ensures r.Some? ==> (r.value.1 * (a - d)) % p == 4 % p
    ensures r.None? <==> ModInverse(a - d, p).None?
  {
    var A := ModDiv(2 * (a + d), a - d, p);
    var B := ModDiv(4, a - d, p);
    if A.None? || B.None? then None else Some((A.value, B.value))
  }

  /** _weierstrass_parameters_from_montgomery_parameters:
      a' = (3 - A^2)/(3 B^2), b' = (2 A^3 - 9 A)/(27 B^3). */
  function WeierstrassFromMontgomery(A: int, B: int, p: int): (r: Option<(int, int)>)
    requires p > 1
    ensures r.Some? ==> 0 <= r.value.0 < p && 0 <= r.value.1 < p
    ensures r.Some? ==> (r.value.0 * (3 * B * B)) % p == (3 - A * A) % p
    ensures r.Some? ==> (r.value.1 * (27 * B * B * B)) % p == (2 * A * A * A - 9 * A) % p
    ensures r.None? <==> ModInverse(3 * B * B, p).None? || ModInverse(27 * B * B * B, p).None?
  {
    var a' := ModDiv(3 - A * A, 3 * B * B, p);
    var b' := ModDiv(2 * A * A * A - 9 * A, 27 * B * B * B, p);
    if a'.None? || b'.None? then None else Some((a'.value, b'.value))
  }

  /** The Weierstrass coefficients sea_edwards hands to the point counter. */
  function WeierstrassFromEdwards(a: int, d: int, p: int): (r: Option<(int, int)>)
    requires p > 1
  {
    match MontgomeryFromEdwards(a, d, p)
    case None => None
    case Some((A, B)) => WeierstrassFromMontgomery(A, B, p)
  }

  // ---------------------------------------------------------------------
  // CM field discriminant

  /** The exponent of a row in the square part: the multiplicity rounded
      down to an even number. */
  function EvenPart(m: nat): (e: nat)
  {
    if m % 2 == 0 then m else m - 1
  }

  /** s^2, the product of p^EvenPart(m) over the rows. */
  function SquarePart(fs: seq<PrimePower>): (s: int)
  {
    if fs == [] then 1 else Pow(fs[0].prime, EvenPart(fs[0].mult)) * SquarePart(fs[1..])
  }

  /** s, with s^2 = SquarePart. */
  function SquareRoot(fs: seq<PrimePower>): (r: int)
  {
    if fs == [] then 1 else Pow(fs[0].prime, EvenPart(fs[0].mult) / 2) * SquareRoot(fs[1..])
  }

  /** The rows of a factorisation, without the sign row, have factors of at least 2. */
  predicate SignedRows(fs: seq<PrimePower>)
  {
    forall i :: 0 <= i < |fs| ==> fs[i].prime >= 2 || (i == 0 && fs[i].prime == -1 && fs[i].mult == 1)
  }

  lemma TailRows(fs: seq<PrimePower>)
    requires fs != [] && SignedRows(fs)
    ensures forall i :: 0 <= i < |fs[1..]| ==> fs[1..][i].prime >= 2
  {
    forall i | 0 <= i < |fs[1..]| ensures fs[1..][i].prime >= 2 { assert fs[1..][i] == fs[i + 1]; }
  }

  lemma SquareOfProduct(h: int, s: int)
    ensures (h * h) * (s * s) == (h * s) * (h * s)
  {
  }

  /** The square part is the square of SquareRoot. */
  lemma {:induction false} SquarePartIsSquare(fs: seq<PrimePower>)
    ensures SquarePart(fs) == SquareRoot(fs) * SquareRoot(fs)
  {
    if fs != [] {
      var q, e := fs[0].prime, EvenPart(fs[0].mult);
      SquarePartIsSquare(fs[1..]);
      assert e / 2 + e / 2 == e;
      PowAdd(q, e / 2, e / 2);
      var h, sr := Pow(q, e / 2), SquareRoot(fs[1..]);
      assert Pow(q, e) == h * h;
      SquareOfProduct(h, sr);
    }
  }

  /** The square part is positive. */
  lemma {:induction false} SquarePartPositive(fs: seq<PrimePower>)
    requires SignedRows(fs)
    ensures SquarePart(fs) >= 1
  {
    if fs != [] {
      TailRows(fs);
      SquarePartPositive(fs[1..]);
      var q, e := fs[0].prime, EvenPart(fs[0].mult);
      if q >= 2 {
        MulMonotone(1, Pow(q, e), SquarePart(fs[1..]));
      } else {
        assert e == 0;
      }
    }
  }

  lemma Swap(a: int, b: int, c: int, d: int)
    ensures (a * b) * (c * d) == (a * c) * (b * d)
  {
  }

  /** The square part divides the factored integer. */
  lemma {:induction false} SquarePartDivides(fs: seq<PrimePower>)
    requires SignedRows(fs)
    ensures SquarePart(fs) >= 1 && FactorProduct(fs) % SquarePart(fs) == 0
  {
    SquarePartPositive(fs);
    if fs == [] {
      DividesMultiple(1, 1, 1);
    } else {
      var rest := fs[1..];
      TailRows(fs);
      SquarePartDivides(rest);
      var q, m := fs[0].prime, fs[0].mult;
      var e := EvenPart(m);
      PowAdd(q, e, m - e);
      var a, b, c := Pow(q, e), Pow(q, m - e), SquarePart(rest);
      var k1 := FactorProduct(rest) / c;
      ExactQuotient(FactorProduct(rest), c);
      assert FactorProduct(fs) == (a * b) * (c * k1);
      Swap(a, b, c, k1);
      assert SquarePart(fs) == a * c;
      DividesMultiple(FactorProduct(fs), a * c, b * k1);
    }
  }

  /** n divided by its square part, times 4 unless that is 1 mod 4: a
      discriminant (0 or 1 mod 4) that differs from n by a square factor. */
  function FundamentalPart(n: int, fs: seq<PrimePower>): (D: int)
    requires IsFactorization(fs, n)
    ensures D % 4 == 0 || D % 4 == 1
    ensures D * SquarePart(fs) == n || D * SquarePart(fs) == 4 * n
    ensures SquarePart(fs) >= 1
    ensures D * SquarePart(fs) == n <==> (n / SquarePart(fs)) % 4 == 1
  {
    SquarePartDivides(fs);
    FactorProductNonZero(fs);
    var S := SquarePart(fs);
    var q := n / S;
    ExactQuotient(n, S);
    MulAssoc(4, q, S);
    if q % 4 != 1 then
      assert (4 * q) % 4 == 0 by { DivModUnique(4 * q, 4, q, 0); }
      assert (4 * q) * S != n by {
        assert (4 * q) * S - n == 3 * (q * S);
        assert q * S != 0;
      }
      4 * q
    else q
  }

  /** A factorisation never multiplies out to 0. */
  lemma FactorProductNonZero(fs: seq<PrimePower>)
    requires SignedRows(fs)
    ensures FactorProduct(fs) != 0
  {
    if fs != [] {
      if fs[0].prime >= 2 {
        TailRows(fs);
        FactorProductPositive(fs);
      } else {
        TailRows(fs);
        FactorProductPositive(fs[1..]);
        assert Pow(fs[0].prime, fs[0].mult) == -1;
      }
    }
  }

  /** cm_field_discriminant(p, t): the discriminant of the CM field of a
      curve with trace t over the field of p elements. */
  function CmDiscriminant(p: int, t: int, fs: seq<PrimePower>): (D: int)
    requires IsFactorization(fs, t * t - 4 * p)
    ensures D % 4 == 0 || D % 4 == 1
    ensures D * SquarePart(fs) == t * t - 4 * p || D * SquarePart(fs) == 4 * (t * t - 4 * p)
    ensures SquarePart(fs) >= 1
    ensures D * SquarePart(fs) == t * t - 4 * p <==> ((t * t - 4 * p) / SquarePart(fs)) % 4 == 1
  {
    FundamentalPart(t * t - 4 * p, fs)
  }

  /** cm_field_discriminant with its loop over the factorisation of t^2 - 4p. */
  method CmFieldDiscriminant(p: int, t: int, fs: seq<PrimePower>) returns (D: int)
    requires IsFactorization(fs, t * t - 4 * p)
    ensures D == CmDiscriminant(p, t, fs)
  {
    var sSquare := 1;
    var i := 0;
    while i < |fs|
      invariant 0 <= i <= |fs|
      invariant sSquare * SquarePart(fs[i..]) == SquarePart(fs)
    {
      assert fs[i..][1..] == fs[i + 1..];
      var f := fs[i];
      var factor := if f.mult % 2 == 0 then Pow(f.prime, f.mult) else Pow(f.prime, f.mult - 1);
      assert factor == Pow(f.prime, EvenPart(f.mult));
      MulAssoc(sSquare, factor, SquarePart(fs[i + 1..]));
      sSquare := sSquare * factor;
      i := i + 1;
    }
    assert fs[|fs|..] == [];
    SquarePartPositive(fs);
    D := (t * t - 4 * p) / sSquare;
    if D % 4 != 1 {
      D := D * 4;
    }
  }

  // ---------------------------------------------------------------------
  // Embedding degree

  /** How the test `p^(m // f) % q == 1` reads: the source writes `^`, which
      is XOR in its language; the documented algorithm means a modular power. */
  datatype PowerReading = XorAsWritten | ModularPower

  predicate DivisorTest(p: int, e: int, q: int, reading: PowerReading)
    requires q > 0
  {
    match reading
    case XorAsWritten => IntXor(p, e) % q == 1
    case ModularPower => e >= 0 && PowMod(p, e, q) == 1
  }

  /** The inner loop over one row (f, count): count times, divide m by f
      when the test holds for m / f. */
  function ReduceByPrime(p: int, q: int, f: int, count: nat, m: int, reading: PowerReading): (r: int)
    requires q > 0 && f != 0
  {
    if count == 0 then m
    else
      var m' := if DivisorTest(p, m / f, q, reading) then m / f else m;
      ReduceByPrime(p, q, f, count - 1, m', reading)
  }

  /** The outer loop over the rows of the factorisation. */
  function ReduceOrder(p: int, q: int, fs: seq<PrimePower>, m: int, reading: PowerReading): (r: int)
    requires q > 0 && forall i :: 0 <= i < |fs| ==> fs[i].prime >= 2
  {
    if fs == [] then m
    else ReduceOrder(p, q, fs[1..], ReduceByPrime(p, q, fs[0].prime, fs[0].mult, m, reading), reading)
  }

  /** embedding_degree(p, q), given the factorisation of q - 1. */
  function EmbeddingDegreeOf(p: int, q: int, fs: seq<PrimePower>, reading: PowerReading): (m: int)
    requires q >= 2 && IsPositiveFactorization(fs, q - 1)
  {
    ReduceOrder(p, q, fs, q - 1, reading)
  }

  lemma Regroup(k: int, f: int, P: int, rest: int)
    ensures (k * (f * P)) * rest == f * ((k * P) * rest)
    ensures (k * (f * P)) * rest == ((k * f) * P) * rest
    ensures f * ((k * P) * rest) == ((k * P) * rest) * f
  {
  }

  lemma ProductAtLeastOne(a: int, b: int, c: int)
    requires a >= 1 && b >= 1 && c >= 1
    ensures (a * b) * c >= 1
  {
    MulMonotone(1, a, b);
    MulMonotone(1, a * b, c);
  }

  /** Dividing by f at most count times keeps m a positive multiple of rest,
      and the result divides m. */
  lemma {:induction false} ReduceByPrimeDivides(p: int, q: int, f: int, count: nat, m: int, k: int, rest: int, reading: PowerReading)
    requires q > 0 && f >= 2 && k >= 1 && rest >= 1
    requires m == (k * Pow(f, count)) * rest
    ensures var r := ReduceByPrime(p, q, f, count, m, reading);
      r >= 1 && r % rest == 0 && m % r == 0
  {
    var r := ReduceByPrime(p, q, f, count, m, reading);
    if count == 0 {
      assert m == rest * k;
      DividesMultiple(m, rest, k);
      ProductAtLeastOne(k, 1, rest);
      DividesMultiple(m, m, 1);
    } else {
      var P' := Pow(f, count - 1);
      assert Pow(f, count) == f * P';
      var m1 := (k * P') * rest;
      Regroup(k, f, P', rest);
      ProductAtLeastOne(k, P', rest);
      DividesMultiple(m, f, m1);
      if DivisorTest(p, m / f, q, reading) {
        ReduceByPrimeDivides(p, q, f, count - 1, m1, k, rest, reading);
        DividesMultiple(m, m1, f);
        DividesTransitive(r, m1, m);
      } else {
        assert k * f >= 1;
        ReduceByPrimeDivides(p, q, f, count - 1, m, k * f, rest, reading);
      }
    }
  }

  /** The outer loop keeps a positive divisor of m. */
  lemma {:induction false} ReduceOrderDivides(p: int, q: int, fs: seq<PrimePower>, m: int, k: int, reading: PowerReading)
    requires q > 0 && k >= 1 && forall i :: 0 <= i < |fs| ==> fs[i].prime >= 2
    requires m == k * FactorProduct(fs)
    ensures var r := ReduceOrder(p, q, fs, m, reading);
      r >= 1 && m % r == 0
  {
    FactorProductPositive(fs);
    var r := ReduceOrder(p, q, fs, m, reading);
    if fs == [] {
      DividesMultiple(m, m, 1);
    } else {
      var rest := fs[1..];
      var R := FactorProduct(rest);
      var P := Pow(fs[0].prime, fs[0].mult);
      FactorProductPositive(rest);
      MulAssoc(k, P, R);
      var m1 := ReduceByPrime(p, q, fs[0].prime, fs[0].mult, m, reading);
      ReduceByPrimeDivides(p, q, fs[0].prime, fs[0].mult, m, k, R, reading);
      var k1 := m1 / R;
      assert m1 == R * k1;
      assert k1 >= 1 by {
        if k1 <= 0 { MulMonotone(k1, 0, R); }
      }
      ReduceOrderDivides(p, q, rest, m1, k1, reading);
      DividesTransitive(r, m1, m);
    }
  }

  /** The embedding degree, either reading, is a positive divisor of q - 1. */
  lemma EmbeddingDegreeDivides(p: int, q: int, fs: seq<PrimePower>, reading: PowerReading)
    requires q >= 2 && IsPositiveFactorization(fs, q - 1)
    ensures EmbeddingDegreeOf(p, q, fs, reading) >= 1
    ensures (q - 1) % EmbeddingDegreeOf(p, q, fs, reading) == 0
  {
    ReduceOrderDivides(p, q, fs, q - 1, 1, reading);
  }

  /** With the modular-power reading every step keeps p^m = 1 (mod q), so
      the result is an exponent that p^r = 1 (mod q) holds for as soon as
      p^(q-1) = 1 (mod q) does (Fermat's little theorem for prime q). */
  lemma {:induction false} ReduceByPrimeKeepsOrder(p: int, q: int, f: int, count: nat, m: int)
    requires q > 1 && f >= 2 && m >= 0 && PowMod(p, m, q) == 1
    ensures ReduceByPrime(p, q, f, count, m, ModularPower) >= 0
    ensures PowMod(p, ReduceByPrime(p, q, f, count, m, ModularPower), q) == 1
  {
    if count > 0 {
      var m' := if DivisorTest(p, m / f, q, ModularPower) then m / f else m;
      ReduceByPrimeKeepsOrder(p, q, f, count - 1, m');
    }
  }

  lemma {:induction false} ReduceOrderKeepsOrder(p: int, q: int, fs: seq<PrimePower>, m: int)
    requires q > 1 && m >= 0 && PowMod(p, m, q) == 1 && forall i :: 0 <= i < |fs| ==> fs[i].prime >= 2
    ensures ReduceOrder(p, q, fs, m, ModularPower) >= 0
    ensures PowMod(p, ReduceOrder(p, q, fs, m, ModularPower), q) == 1
  {
    if fs != [] {
      ReduceByPrimeKeepsOrder(p, q, fs[0].prime, fs[0].mult, m);
      ReduceOrderKeepsOrder(p, q, fs[1..], ReduceByPrime(p, q, fs[0].prime, fs[0].mult, m, ModularPower));
    }
  }

  /** The intended embedding degree is an exponent m with p^m = 1 (mod q). */
  lemma EmbeddingDegreeIntendedIsOrderMultiple(p: int, q: int, fs: seq<PrimePower>)
    requires q >= 2 && IsPositiveFactorization(fs, q - 1)
    requires PowMod(p, q - 1, q) == 1
    ensures EmbeddingDegreeOf(p, q, fs, ModularPower) >= 0
    ensures PowMod(p, EmbeddingDegreeOf(p, q, fs, ModularPower), q) == 1
  {
    ReduceOrderKeepsOrder(p, q, fs, q - 1);
  }

  /** Every row of fs is a prime. */
  ghost predicate PrimeRows(fs: seq<PrimePower>)
  {
    forall i :: 0 <= i < |fs| ==> IsPrime(fs[i].prime)
  }

  /** No row prime of fs divides k. */
  ghost predicate FreeOf(k: int, fs: seq<PrimePower>)
  {
    forall i :: 0 <= i < |fs| ==> fs[i].prime != 0 && k % fs[i].prime != 0
  }

  lemma TailFactorization(fs: seq<PrimePower>)
    requires fs != [] && IsPositiveFactorization(fs, FactorProduct(fs)) && PrimeRows(fs)
    ensures IsPositiveFactorization(fs[1..], FactorProduct(fs[1..])) && PrimeRows(fs[1..])
    ensures forall i :: 0 <= i < |fs[1..]| ==> fs[1..][i] == fs[i + 1] && fs[0].prime < fs[i + 1].prime
  {
  }

  /** Distinct primes do not divide one another. */
  lemma DistinctPrimesCoprime(g: int, f: int)
    requires IsPrime(g) && IsPrime(f) && g != f
    ensures f % g != 0
  {
    if g > f {
      DivModUnique(f, g, 0, f);
    }
  }

  lemma {:induction false} PrimeNotDividesPow(g: int, f: int, e: nat)
    requires IsPrime(g) && IsPrime(f) && g != f
    ensures Pow(f, e) % g != 0
  {
    if e == 0 {
      DivModUnique(1, g, 0, 1);
    } else {
      PrimeNotDividesPow(g, f, e - 1);
      DistinctPrimesCoprime(g, f);
      ProductNotDivisible(g, f, Pow(f, e - 1));
    }
  }

  /** A prime that is no row of fs does not divide the product of fs. */
  lemma {:induction false} PrimeNotDividesRows(g: int, fs: seq<PrimePower>)
    requires IsPrime(g) && PrimeRows(fs) && forall i :: 0 <= i < |fs| ==> fs[i].prime != g
    ensures FactorProduct(fs) % g != 0
  {
    if fs == [] {
      DivModUnique(1, g, 0, 1);
    } else {
      assert forall i :: 0 <= i < |fs[1..]| ==> fs[1..][i] == fs[i + 1];
      PrimeNotDividesRows(g, fs[1..]);
      PrimeNotDividesPow(g, fs[0].prime, fs[0].mult);
      FactorProductPositive(fs[1..]);
      ProductNotDivisible(g, Pow(fs[0].prime, fs[0].mult), FactorProduct(fs[1..]));
    }
  }

  /** Once the test fails, m stays as it is for the rest of the row. */
  lemma {:induction false} ReduceByPrimeStuck(p: int, q: int, f: int, count: nat, m: int, reading: PowerReading)
    requires q > 0 && f != 0 && !DivisorTest(p, m / f, q, reading)
    ensures ReduceByPrime(p, q, f, count, m, reading) == m
  {
    if count > 0 {
      ReduceByPrimeStuck(p, q, f, count - 1, m, reading);
    }
  }

  /** The inner loop removes s <= count factors f from m = k f^count rest,
      and when it stops early the test fails on what it leaves. */
  lemma {:induction false} ReduceByPrimeShape(p: int, q: int, f: int, count: nat, m: int, k: int, rest: int,
                                             reading: PowerReading) returns (s: nat)
    requires q > 0 && f >= 2 && k >= 1 && rest >= 1
    requires m == (k * Pow(f, count)) * rest
    ensures s <= count
    ensures ReduceByPrime(p, q, f, count, m, reading) == (k * Pow(f, s)) * rest
    ensures s > 0 ==> !DivisorTest(p, ReduceByPrime(p, q, f, count, m, reading) / f, q, reading)
  {
    if count == 0 {
      s := 0;
    } else {
      var P' := Pow(f, count - 1);
      assert Pow(f, count) == f * P';
      var m1 := (k * P') * rest;
      Regroup(k, f, P', rest);
      DividesMultiple(m, f, m1);
      if DivisorTest(p, m / f, q, reading) {
        s := ReduceByPrimeShape(p, q, f, count - 1, m1, k, rest, reading);
      } else {
        ReduceByPrimeStuck(p, q, f, count - 1, m, reading);
        s := count;
      }
    }
  }

  /** Multiplying k by a power of the first row prime keeps it free of the
      later rows. */
  lemma FreeOfStep(k: int, s: nat, fs: seq<PrimePower>)
    requires fs != [] && IsPositiveFactorization(fs, FactorProduct(fs)) && PrimeRows(fs)
    requires k >= 1 && FreeOf(k, fs)
    ensures k * Pow(fs[0].prime, s) >= 1 && FreeOf(k * Pow(fs[0].prime, s), fs[1..])
  {
    var f := fs[0].prime;
    TailFactorization(fs);
    MulPositive(k, Pow(f, s));
    forall i | 0 <= i < |fs[1..]|
      ensures (k * Pow(f, s)) % fs[1..][i].prime != 0
    {
      var g := fs[i + 1].prime;
      PrimeNotDividesPow(g, f, s);
      ProductNotDivisible(g, k, Pow(f, s));
    }
  }

  /** The first row: what the inner loop leaves, m1, is either free of f or
      fails the test, so no divisor r of m1 with f | r has p^(r/f) = 1. */
  lemma FirstRowMinimal(p: int, q: int, f: int, s: nat, k: int, R: int, m1: int, r: int)
    requires q > 1 && IsPrime(f) && k >= 1 && R >= 1 && k % f != 0 && R % f != 0
    requires m1 == (k * Pow(f, s)) * R
    requires s > 0 ==> !DivisorTest(p, m1 / f, q, ModularPower)
    requires r >= 1 && m1 % r == 0
    ensures r % f == 0 ==> PowMod(p, r / f, q) != 1
  {
    if r % f == 0 {
      var c := m1 / r;
      var h := r / f;
      ExactQuotient(m1, r);
      ExactQuotient(r, f);
      MulAssoc(f, h, c);
      assert c >= 0 && h >= 0 by {
        if c < 0 { MulMonotone(c, -1, r); }
        if h < 0 { MulMonotone(h, -1, f); }
      }
      DividesMultiple(m1, f, h * c);
      if s > 0 {
        if PowMod(p, h, q) == 1 {
          PowModMultipleOfOrder(p, h, c, q);
        }
      } else {
        assert m1 == k * R;
        ProductNotDivisible(f, k, R);
      }
    }
  }

  /** With the modular-power reading, the loops leave an m from which no
      row prime can be divided out: for every row prime f dividing the
      result r, p^(r/f) != 1 (mod q). The loop invariant: m = k times the
      product of the remaining rows, k free of their primes. */
  lemma {:induction false} ReduceOrderMinimal(p: int, q: int, fs: seq<PrimePower>, m: int, k: int)
    requires q > 1 && k >= 1 && IsPositiveFactorization(fs, FactorProduct(fs)) && PrimeRows(fs)
    requires m == k * FactorProduct(fs) && FreeOf(k, fs) && m >= 1 && PowMod(p, m, q) == 1
    ensures var r := ReduceOrder(p, q, fs, m, ModularPower);
      && r >= 1
      && forall i :: 0 <= i < |fs| && r % fs[i].prime == 0 ==> PowMod(p, r / fs[i].prime, q) != 1
  {
    if fs != [] {
      var f, e, rest := fs[0].prime, fs[0].mult, fs[1..];
      TailFactorization(fs);
      FactorProductPositive(rest);
      var R := FactorProduct(rest);
      MulAssoc(k, Pow(f, e), R);
      var s := ReduceByPrimeShape(p, q, f, e, m, k, R, ModularPower);
      var m1 := ReduceByPrime(p, q, f, e, m, ModularPower);
      ProductAtLeastOne(k, Pow(f, e), R);
      ReduceByPrimeKeepsOrder(p, q, f, e, m);
      var k1 := k * Pow(f, s);
      FreeOfStep(k, s, fs);
      ReduceOrderMinimal(p, q, rest, m1, k1);
      var r := ReduceOrder(p, q, fs, m, ModularPower);
      assert r == ReduceOrder(p, q, rest, m1, ModularPower);
      ReduceOrderDivides(p, q, rest, m1, k1, ModularPower);
      PrimeNotDividesRows(f, rest);
      FirstRowMinimal(p, q, f, s, k, R, m1, r);
      forall i | 1 <= i < |fs| && r % fs[i].prime == 0
        ensures PowMod(p, r / fs[i].prime, q) != 1
      {
        assert fs[i] == rest[i - 1];
      }
    }
  }

  /** For prime q, the intended embedding degree is the order of p modulo
      q, the smallest m >= 1 with p^m = 1 (mod q): p^m = 1, no row prime
      can be divided out of m, and every exponent e >= 1 with p^e = 1 is a
      multiple of m. The hypothesis p^(q-1) = 1 (mod q) is Fermat's little
      theorem for prime q and p not a multiple of q. */
  lemma EmbeddingDegreeIntendedIsOrder(p: int, q: int, fs: seq<PrimePower>)
    requires q >= 2 && IsPositiveFactorization(fs, q - 1) && PrimeRows(fs)
    requires PowMod(p, q - 1, q) == 1
    ensures var m := EmbeddingDegreeOf(p, q, fs, ModularPower);
      && m >= 1 && (q - 1) % m == 0 && PowMod(p, m, q) == 1
      && (forall i :: 0 <= i < |fs| && m % fs[i].prime == 0 ==> PowMod(p, m / fs[i].prime, q) != 1)
      && (forall e: nat :: e >= 1 && PowMod(p, e, q) == 1 ==> e % m == 0 && m <= e)
  {
    var m := EmbeddingDegreeOf(p, q, fs, ModularPower);
    EmbeddingDegreeDivides(p, q, fs, ModularPower);
    ReduceOrderKeepsOrder(p, q, fs, q - 1);
    assert q - 1 == 1 * FactorProduct(fs);
    ReduceOrderMinimal(p, q, fs, q - 1, 1);
    forall e: nat | e >= 1 && PowMod(p, e, q) == 1
      ensures e % m == 0 && m <= e
    {
      OrderDividesExponent(p, q, fs, m, e);
      DivisorAtMost(m, e);
    }
  }

  /** The step from minimality to the order: gcd(e, m) is an exponent of 1;
      if it were a proper divisor of m, a prime g of m / gcd(e, m) would be
      a row prime with p^(m/g) = 1. */
  lemma OrderDividesExponent(p: int, q: int, fs: seq<PrimePower>, m: int, e: nat)
    requires q >= 2 && IsPositiveFactorization(fs, q - 1) && PrimeRows(fs)
    requires m >= 1 && (q - 1) % m == 0 && PowMod(p, m, q) == 1
    requires forall i :: 0 <= i < |fs| && m % fs[i].prime == 0 ==> PowMod(p, m / fs[i].prime, q) != 1
    requires e >= 1 && PowMod(p, e, q) == 1
    ensures e % m == 0
  {
    var d := GcdNat(e, m);
    GcdNatDivides(e, m);
    PowModGcd(p, e, m, q);
    DivisorAtMost(d, m);
    if d < m {
      ProperDivisorOfOrder(p, q, fs, m, d);
    }
  }

  /** A proper divisor d of m with p^d = 1 leaves a row prime g of m with
      p^(m/g) = 1: any prime g of m / d. */
  lemma ProperDivisorOfOrder(p: int, q: int, fs: seq<PrimePower>, m: int, d: int)
    requires q >= 2 && IsPositiveFactorization(fs, q - 1) && PrimeRows(fs)
    requires m >= 1 && (q - 1) % m == 0
    requires 1 <= d < m && m % d == 0 && PowMod(p, d, q) == 1
    ensures exists i :: 0 <= i < |fs| && m % fs[i].prime == 0 && PowMod(p, m / fs[i].prime, q) == 1
  {
    var t := m / d;
    ExactQuotient(m, d);
    assert t >= 2 by {
      if t <= 1 { MulMonotone(t, 1, d); }
    }
    var g := PrimeFactorExists(t);
    var u := t / g;
    ExactQuotient(t, g);
    assert u >= 1 by {
      if u <= 0 { MulMonotone(u, 0, g); }
    }
    MulAssoc(d, g, u);
    DividesMultiple(m, g, d * u);
    DividesTransitive(g, m, q - 1);
    var i := RowOf(g, fs, q - 1);
    PowModMultipleOfOrder(p, d, u, q);
    assert m % fs[i].prime == 0 && PowMod(p, m / fs[i].prime, q) == 1;
  }

  /** A prime dividing the product of fs is one of its rows. */
  lemma RowOf(g: int, fs: seq<PrimePower>, n: int) returns (i: int)
    requires IsPrime(g) && PrimeRows(fs) && FactorProduct(fs) == n && n % g == 0
    ensures 0 <= i < |fs| && fs[i].prime == g
  {
    if forall j :: 0 <= j < |fs| ==> fs[j].prime != g {
      PrimeNotDividesRows(g, fs);
    }
    i :| 0 <= i < |fs| && fs[i].prime == g;
  }

  /** The test as written does not compute the embedding degree: for p = 3,
      q = 5 (q - 1 = 2^2) it returns 2 because 3 XOR 2 = 1, although
      3^2 = 4 (mod 5); the modular-power reading returns 4, the true order. */
  lemma EmbeddingDegreeXorCounterexample()
    ensures IsPositiveFactorization([PrimePower(2, 2)], 4)
    ensures EmbeddingDegreeOf(3, 5, [PrimePower(2, 2)], XorAsWritten) == 2
    ensures PowMod(3, 2, 5) != 1
    ensures EmbeddingDegreeOf(3, 5, [PrimePower(2, 2)], ModularPower) == 4
  {
    var fs := [PrimePower(2, 2)];
    assert FactorProduct(fs) == 4 by { assert fs[1..] == []; }
    assert IntXor(3, 2) == 1 by {
      assert IntXor(1, 1) == 0;
    }
    assert IntXor(3, 1) == 2 by {
      assert IntXor(1, 0) == 1;
    }
    assert ReduceByPrime(3, 5, 2, 2, 4, XorAsWritten) == 2;
    assert ReduceOrder(3, 5, fs, 4, XorAsWritten) == 2 by { assert fs[1..] == []; }
    assert Pow(3, 2) == 9;
    assert Pow(3, 2) % 5 == 4;
    assert ReduceByPrime(3, 5, 2, 2, 4, ModularPower) == 4;
    assert ReduceOrder(3, 5, fs, 4, ModularPower) == 4 by { assert fs[1..] == []; }
  }

  /** embedding_degree(p, q) with its nested loops; reading selects how the
      power in the test is read. */
  method EmbeddingDegree(p: int, q: int, fs: seq<PrimePower>, reading: PowerReading) returns (m: int)
    requires q >= 2 && IsPositiveFactorization(fs, q - 1)
    ensures m == EmbeddingDegreeOf(p, q, fs, reading)
    ensures m >= 1 && (q - 1) % m == 0
  {
    m := q - 1;
    var k := 0;
    while k < |fs|
      invariant 0 <= k <= |fs|
      invariant ReduceOrder(p, q, fs[k..], m, reading) == EmbeddingDegreeOf(p, q, fs, reading)
    {
      assert fs[k..][1..] == fs[k + 1..];
      var f := fs[k];
      var i := 0;
      while i < f.mult
        invariant 0 <= i <= f.mult
        invariant ReduceOrder(p, q, fs[k + 1..], ReduceByPrime(p, q, f.prime, f.mult - i, m, reading), reading)
          == EmbeddingDegreeOf(p, q, fs, reading)
      {
        if DivisorTest(p, m / f.prime, q, reading) {
          m := m / f.prime;
        }
        i := i + 1;
      }
      k := k + 1;
    }
    EmbeddingDegreeDivides(p, q, fs, reading);
  }
}
