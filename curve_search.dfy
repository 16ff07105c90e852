/** The search for the Edwards curve x^2 + y^2 = 1 + d x^2 y^2 over F_p:
    candidates d are drawn from the BBS generator, size = bit length of p
    bits each, and put through eight tests; the first d that passes all of
    them is kept, and a base point is then drawn on its curve. */
module CurveSearch {
  import opened Wrappers
  import opened Arith
  import opened Subroutines
  import opened BbsEngine
  import opened PrimeField

  // ---------------------------------------------------------------------
  // Oracles and number-theoretic helpers

  /** gmpy2.legendre(a, p) for an odd prime p, by Euler's criterion: 0 when
      p divides a, 1 when a^((p - 1) / 2) = 1 (mod p), -1 otherwise. */
  function Legendre(a: int, p: int): (r: int)
    requires p >= 3
    ensures r == 0 <==> a % p == 0
    ensures r == 1 <==> a % p != 0 && PowMod(a, (p - 1) / 2, p) == 1
    ensures r == -1 <==> a % p != 0 && PowMod(a, (p - 1) / 2, p) != 1
  {
    if a % p == 0 then 0
    else if PowMod(a, (p - 1) / 2, p) == 1 then 1
    else -1
  }

  /** z^(p - 1) modulo p; Fermat's little theorem says it is 1 for prime p
      and z not a multiple of p. */
  function FermatPower(z: int, p: int): int
    requires p > 1
  {
    PowMod(z, p - 1, p)
  }

  ghost predicate FermatHolds(p: int)
    requires p > 1
  {
    forall z :: z % p != 0 ==> FermatPower(z, p) == 1
  }

  function Abs(x: int): nat
  {
    if x < 0 then -x else x
  }

  /** cm_field_discriminant(p, t): the CM discriminant from the factorisation
      of t^2 - 4p. For t^2 = 4p the factoring library returns the single row
      0^1, so the square part stays 1 and the discriminant is 0. */
  function Discriminant(p: int, t: int, factor: int -> seq<PrimePower>): (D: int)
    requires FactorOracle(factor)
    ensures t * t - 4 * p != 0 ==> D == CmDiscriminant(p, t, factor(t * t - 4 * p))
  {
    if t * t - 4 * p == 0 then 0
    else CmDiscriminant(p, t, factor(t * t - 4 * p))
  }

  /** A point of the curve with parameter d, modulo p. */
  predicate OnCurve(x: int, y: int, d: int, p: int)
    requires p > 0
  {
    (x * x + y * y) % p == (1 + d * x * x * y * y) % p
  }

  // ---------------------------------------------------------------------
  // The eight tests on one candidate

  /** 2^100, the bound of test 8 on the absolute value of the discriminant. */
  const DISCRIMINANT_BOUND: int := 0x10_0000_0000_0000_0000_0000_0000

  lemma DiscriminantBound()
    ensures DISCRIMINANT_BOUND == Pow(2, 100)
  {
    PowMul(2, 10, 10);
    assert Pow(2, 10) == 1024;
    PowMul(1024, 5, 2);
    assert Pow(1024, 5) == 0x4_0000_0000_0000;
    var h := 0x4_0000_0000_0000;
    assert Pow(h, 1) == h;
    assert Pow(h, 2) == h * h;
  }

  /** The quantities the tests compute for an accepted candidate. */
  datatype TestResults = TestResults(cardinality: int, q: int, cardinalityTwist: int, qTwist: int,
                           trace: int, degree: int, degreeTwist: int, discriminant: int)

  /** The outcome of the tests on one candidate: accepted, rejected by
      test number `test`, or an error that ends the script. */
  datatype Verdict = Accept(results: TestResults) | Reject(test: int) | Abort(failure: Failure)

  /** Tests 1 to 8 on the candidate d. The point counter `sea` maps the
      Weierstrass coefficients (a, b) of a curve over F_p to its number of
      points; isPrime is the Miller-Rabin test deterministic_is_pseudo_prime;
      the embedding degree is computed as written, with `^` read as XOR
      (`XorAsWritten`). */
  function Examine(d: int, p: int, sea: (int, int) -> int, factor: int -> seq<PrimePower>, isPrime: int -> bool): (v: Verdict)
    requires p >= 3 && p % 4 == 3 && FactorOracle(factor)
    requires forall n :: isPrime(n) ==> n >= 2
    ensures v.Reject? ==> 1 <= v.test <= 8
    ensures v.Abort? ==> v.failure in {NoInverse, AssertionFailed}
  {
    if !(d != 0 && d < p) then Reject(1)
    else if Legendre(d, p) != -1 then Reject(2)
    else
      var w := WeierstrassFromEdwards(1, d, p);
      if w.None? then Abort(NoInverse)
      else ExamineCardinality(sea(w.value.0, w.value.1), p, factor, isPrime)
  }

  /** Tests 3 to 8, once the curve's number of points is known: the
      assertion that it is a multiple of 4, then the primality of q and of
      the twist's q'. */
  function ExamineCardinality(cardinality: int, p: int, factor: int -> seq<PrimePower>, isPrime: int -> bool): (v: Verdict)
    requires p >= 3 && p % 4 == 3 && FactorOracle(factor)
    requires forall n :: isPrime(n) ==> n >= 2
    ensures v.Reject? ==> 3 <= v.test <= 8
    ensures v.Abort? ==> v.failure == AssertionFailed
  {
    if cardinality % 4 != 0 then Abort(AssertionFailed)
    else
      var q := cardinality / 4;
      if !isPrime(q) then Reject(3)
      else
        var trace := p + 1 - cardinality;
        var cardinalityTwist := p + 1 + trace;
        var qTwist := cardinalityTwist / 4;
        if !isPrime(qTwist) then Reject(4)
        else if !(q != p && qTwist != p) then Reject(5)
        else ExamineSecurity(p, cardinality, q, cardinalityTwist, qTwist, trace, factor)
  }

  /** Tests 6 to 8: the embedding degrees of the curve and of its twist
      exceed (q - 1) / 100, and the CM field discriminant is at least 2^100
      in absolute value. */
  function ExamineSecurity(p: int, cardinality: int, q: int, cardinalityTwist: int, qTwist: int, trace: int,
                           factor: int -> seq<PrimePower>): (v: Verdict)
    requires q >= 2 && qTwist >= 2 && FactorOracle(factor)
    ensures v.Reject? ==> 6 <= v.test <= 8
    ensures !v.Abort?
  {
    var degree := EmbeddingDegreeOf(p, q, factor(q - 1), XorAsWritten);
    if !(degree > (q - 1) / 100) then Reject(6)
    else
      var degreeTwist := EmbeddingDegreeOf(p, qTwist, factor(qTwist - 1), XorAsWritten);
      if !(degreeTwist > (qTwist - 1) / 100) then Reject(7)
      else
        var D := Discriminant(p, trace, factor);
        if !(Abs(D) >= DISCRIMINANT_BOUND) then Reject(8)
        else Accept(TestResults(cardinality, q, cardinalityTwist, qTwist, trace, degree, degreeTwist, D))
  }

  /** The twist's cardinality 2p + 2 - N is a multiple of 4 whenever N is
      and p = 3 (mod 4): the source's assertion on it always holds. */
  lemma TwistDivisible(p: int, cardinality: int)
    requires p % 4 == 3 && cardinality % 4 == 0
    ensures (p + 1 + (p + 1 - cardinality)) % 4 == 0
    ensures (p + 1 + (p + 1 - cardinality)) / 4 == 2 * (p / 4) + 2 - cardinality / 4
  {
    var k, q := p / 4, cardinality / 4;
    DivModUnique(p + 1 + (p + 1 - cardinality), 4, 2 * k + 2 - q, 0);
  }

  /** Test 5 never rejects a candidate that passed tests 3 and 4: with
      4q + 4q' = 2p + 2 and p >= 3, q = p would make q' negative and q' = p
      would make q negative, and the primality test rejects those. */
  lemma AdditiveTransferTestRedundant(p: int, q: int, qTwist: int)
    requires p >= 3 && 4 * q + 4 * qTwist == 2 * p + 2
    requires q >= 2 && qTwist >= 2
    ensures q != p && qTwist != p
  {
  }

  /** What an accepted candidate satisfies. */
  lemma ExamineAccepted(d: int, p: int, sea: (int, int) -> int, factor: int -> seq<PrimePower>, isPrime: int -> bool)
    requires p >= 3 && p % 4 == 3 && FactorOracle(factor)
    requires forall n :: isPrime(n) ==> n >= 2
    requires Examine(d, p, sea, factor, isPrime).Accept?
    ensures d != 0 && d < p && Legendre(d, p) == -1
    ensures WeierstrassFromEdwards(1, d, p).Some?
    ensures var t := Examine(d, p, sea, factor, isPrime).results;
      var w := WeierstrassFromEdwards(1, d, p).value;
      && t.cardinality == sea(w.0, w.1)
      && t.cardinality % 4 == 0 && t.cardinality == 4 * t.q
      && t.trace == p + 1 - t.cardinality
      && t.cardinalityTwist == 2 * p + 2 - t.cardinality && t.cardinalityTwist == 4 * t.qTwist
    ensures var t := Examine(d, p, sea, factor, isPrime).results;
      && isPrime(t.q) && isPrime(t.qTwist)
      && t.q != p && t.qTwist != p
    ensures var t := Examine(d, p, sea, factor, isPrime).results;
      && t.degree == EmbeddingDegreeOf(p, t.q, factor(t.q - 1), XorAsWritten)
      && t.degree > (t.q - 1) / 100
      && t.degreeTwist == EmbeddingDegreeOf(p, t.qTwist, factor(t.qTwist - 1), XorAsWritten)
      && t.degreeTwist > (t.qTwist - 1) / 100
    ensures var t := Examine(d, p, sea, factor, isPrime).results;
      && t.discriminant == Discriminant(p, t.trace, factor)
      && Abs(t.discriminant) >= DISCRIMINANT_BOUND
  {
    var w := WeierstrassFromEdwards(1, d, p).value;
    var cardinality := sea(w.0, w.1);
    ExamineCardinalityAccepted(cardinality, p, factor, isPrime);
    var t := ExamineCardinality(cardinality, p, factor, isPrime).results;
    ExamineSecurityAccepted(p, cardinality, t.q, t.cardinalityTwist, t.qTwist, t.trace, factor);
  }

  lemma ExamineCardinalityAccepted(cardinality: int, p: int, factor: int -> seq<PrimePower>, isPrime: int -> bool)
    requires p >= 3 && p % 4 == 3 && FactorOracle(factor)
    requires forall n :: isPrime(n) ==> n >= 2
    requires ExamineCardinality(cardinality, p, factor, isPrime).Accept?
    ensures var t := ExamineCardinality(cardinality, p, factor, isPrime).results;
      && t.cardinality == cardinality && cardinality % 4 == 0 && cardinality == 4 * t.q
      && t.trace == p + 1 - cardinality
      && t.cardinalityTwist == 2 * p + 2 - cardinality && t.cardinalityTwist == 4 * t.qTwist
      && isPrime(t.q) && isPrime(t.qTwist) && t.q != p && t.qTwist != p
      && t.q >= 2 && t.qTwist >= 2
      && ExamineCardinality(cardinality, p, factor, isPrime)
         == ExamineSecurity(p, cardinality, t.q, t.cardinalityTwist, t.qTwist, t.trace, factor)
  {
    TwistDivisible(p, cardinality);
  }

  lemma ExamineSecurityAccepted(p: int, cardinality: int, q: int, cardinalityTwist: int, qTwist: int, trace: int,
                                factor: int -> seq<PrimePower>)
    requires q >= 2 && qTwist >= 2 && FactorOracle(factor)
    requires ExamineSecurity(p, cardinality, q, cardinalityTwist, qTwist, trace, factor).Accept?
    ensures var t := ExamineSecurity(p, cardinality, q, cardinalityTwist, qTwist, trace, factor).results;
      && t.cardinality == cardinality && t.q == q && t.cardinalityTwist == cardinalityTwist
      && t.qTwist == qTwist && t.trace == trace
      && t.degree == EmbeddingDegreeOf(p, q, factor(q - 1), XorAsWritten)
      && t.degree > (q - 1) / 100
      && t.degreeTwist == EmbeddingDegreeOf(p, qTwist, factor(qTwist - 1), XorAsWritten)
      && t.degreeTwist > (qTwist - 1) / 100
      && t.discriminant == Discriminant(p, trace, factor)
      && Abs(t.discriminant) >= DISCRIMINANT_BOUND
  {
  }

  // ---------------------------------------------------------------------
  // The base point

  /** One attempt at the base point from the drawn y: u = (1 - y^2) / (1 - d y^2),
      x = u^((p + 1) / 4) when u is a square, then the point doubled twice.
      Retry when u is not a square or the result is the identity (0, 1);
      a failing inversion stops the script, and so does a failing check
      that the result lies on the curve. */
  datatype PointDraw = Point(x: int, y: int) | Retry | Fail(failure: Failure)

  function BasePointFrom(y: int, d: int, p: int): (r: PointDraw)
    requires p >= 3 && p % 4 == 3
    ensures r.Point? ==> OnCurve(r.x, r.y, d, p) && (r.x, r.y) != (0, 1)
    ensures r.Fail? ==> r.failure in {NoInverse, AssertionFailed}
  {
    var inv := ModInverse(1 - d * y * y, p);
    if inv.None? then Fail(NoInverse)
    else
      var u := ((1 - y * y) * inv.value) % p;
      if Legendre(u, p) == -1 then Retry
      else
        var x := PowMod(u, (p + 1) / 4, p);
        var p1 := AddOnEdwards(x, y, x, y, d, p);
        if p1.None? then Fail(NoInverse)
        else
          var p2 := AddOnEdwards(p1.value.0, p1.value.1, p1.value.0, p1.value.1, d, p);
          if p2.None? then Fail(NoInverse)
          else if p2.value == (0, 1) then Retry
          else if !OnCurve(p2.value.0, p2.value.1, d, p) then Fail(AssertionFailed)
          else Point(p2.value.0, p2.value.1)
  }

  /** For p = 3 (mod 4) and u a square modulo p (Euler's criterion),
      x = u^((p + 1) / 4) is a square root of u. */
  lemma SqrtOfResidue(u: int, p: int)
    requires p >= 3 && p % 4 == 3 && 0 <= u < p && Legendre(u, p) != -1
    ensures (PowMod(u, (p + 1) / 4, p) * PowMod(u, (p + 1) / 4, p)) % p == u
  {
    var k := p / 4;
    var e, h := (p + 1) / 4, (p - 1) / 2;
    DivModUnique(p + 1, 4, k + 1, 0);
    DivModUnique(p - 1, 2, 2 * k + 1, 0);
    assert 2 * e == h + 1;
    PowModSquare(u, e, p);
    PowAdd(u, h, 1);
    assert Pow(u, 2 * e) == Pow(u, h) * u;
    if u == 0 {
      assert Pow(u, 2 * e) == 0;
    } else {
      ModMulLeft(Pow(u, h), u, p);
      DivModUnique(u, p, 0, u);
    }
  }

  /** (a * b) * c and a * (b * c) agree modulo p once b * c = 1 (mod p). */
  lemma CancelInverse(a: int, b: int, c: int, p: int)
    requires p > 1 && (c * b) % p == 1
    ensures (a * b * c) % p == a % p
  {
    MulAssoc(a, b, c);
    ModMul(a, b * c, p);
    assert (b * c) % p == 1;
    DivModUnique(a % p, p, 0, a % p);
  }

  /** x^2 + y^2 = 1 + d x^2 y^2 (mod p) follows from x^2 (1 - d y^2) = 1 - y^2 (mod p). */
  lemma CurveFromRatio(xx: int, yy: int, d: int, p: int)
    requires p > 1 && (xx * (1 - d * yy)) % p == (1 - yy) % p
    ensures (xx + yy) % p == (1 + d * xx * yy) % p
  {
    assert xx * (1 - d * yy) == xx - d * xx * yy;
    ModSub(xx - d * xx * yy, 1 - yy, p);
    assert (xx + yy) - (1 + d * xx * yy) == (xx - d * xx * yy) - (1 - yy);
    ModSub(xx + yy, 1 + d * xx * yy, p);
  }

  /** The point (u^((p + 1) / 4), y) drawn before the doublings lies on the
      curve: its x^2 is u = (1 - y^2) / (1 - d y^2). */
  lemma StartPointOnCurve(y: int, d: int, p: int)
    requires p >= 3 && p % 4 == 3 && ModInverse(1 - d * y * y, p).Some?
    requires Legendre(((1 - y * y) * ModInverse(1 - d * y * y, p).value) % p, p) != -1
    ensures var u := ((1 - y * y) * ModInverse(1 - d * y * y, p).value) % p;
      var x := PowMod(u, (p + 1) / 4, p);
      OnCurve(x, y, d, p)
  {
    var inv := ModInverse(1 - d * y * y, p).value;
    var u := ((1 - y * y) * inv) % p;
    var x := PowMod(u, (p + 1) / 4, p);
    var den := 1 - d * (y * y);
    assert d * y * y == d * (y * y);
    SqrtOfResidue(u, p);
    ModMulLeft(x * x, den, p);
    ModMulLeft(u, den, p);
    assert ((x * x) * den) % p == (u * den) % p;
    ModMulLeft((1 - y * y) * inv, den, p);
    CancelInverse(1 - y * y, inv, den, p);
    assert ((x * x) * den) % p == (1 - y * y) % p;
    CurveFromRatio(x * x, y * y, d, p);
    MulAssoc(d, x, x);
    MulAssoc(d * x * x, y, y);
  }

  /** With Fermat's little theorem for p (true for a prime p), a
      non-residue d keeps 1 - d y^2 away from 0 modulo p, so the inversion
      in the base-point loop never fails: d y^2 = 1 would make
      d^((p - 1) / 2) = y^(-(p - 1)) = 1. */
  lemma NonResidueDenominatorInvertible(d: int, y: int, p: int)
    requires p >= 3 && p % 2 == 1 && FermatHolds(p) && Legendre(d, p) == -1
    ensures (1 - d * y * y) % p != 0
    ensures ModInverse(1 - d * y * y, p).Some?
  {
    var a := 1 - d * y * y;
    DivModUnique(1, p, 0, 1);
    if a % p == 0 {
      ModSub(1, d * y * y, p);
      assert (d * y * y) % p == 1;
      if y % p == 0 {
        ModMul(d * y, y, p);
        assert false;
      }
      var e := (p - 1) / 2;
      DivModUnique(p - 1, 2, e, 0);
      MulAssoc(d, y, y);
      PowProduct(d, y * y, e);
      PowMul(y, 2, e);
      assert Pow(y, 1) == y * Pow(y, 0) == y;
      assert Pow(y, 2) == y * Pow(y, 1) == y * y;
      PowModBase(d * (y * y), e, p);
      PowOne(e);
      assert (Pow(d, e) * Pow(y, p - 1)) % p == 1;
      assert FermatPower(y, p) == 1;
      ModMul(Pow(d, e), Pow(y, p - 1), p);
      DivModUnique(Pow(d, e) % p, p, 0, Pow(d, e) % p);
      assert false;
    }
    assert FermatPower(a, p) == 1;
    var P := Pow(a, p - 2);
    assert Pow(a, p - 1) == a * P;
    assert (P * a) % p == 1;
    var z := P % p;
    ModMulLeft(P, a, p);
    assert (z * a) % p == 1;
    assert a * z == z * a;
  }

  // ---------------------------------------------------------------------
  // The two drawing loops, as specifications

  /** The integer drawn i-th (from 0) after the start state s, size bits
      per draw, most significant first. */
  function DrawAt(s: int, n: int, size: nat, i: nat): (v: nat)
    requires n > 0
    ensures v < Pow(2, size)
  {
    BitsValueIsFromBits(StateAfter(s, n, size, i), size, n);
    BitsValue(StateAfter(s, n, size, i), size, n)
  }

  /** The accepted candidate, its test results and the number of draws made
      by the candidate loop. */
  datatype Found = Found(d: int, results: TestResults, drawn: nat)

  /** The candidate loop from the i-th draw after the skip on, with the
      tests `examine` (Examine on the curve's data): stop with an error once
      M != 0 candidates have been examined (the source reads a zero or
      missing maximum as no maximum), otherwise draw d and examine it. The
      fuel bounds the number of further draws when there is no maximum. */
  function SearchCandidates(s1: int, n: int, size: nat, start: int, M: int, i: nat, fuel: nat,
                            examine: int -> Verdict): (r: Result<Found, Failure>)
    requires n > 0
    ensures r.Ok? ==> i < r.value.drawn && (M != 0 ==> r.value.drawn <= M)
    ensures r.Ok? ==> r.value.d == DrawAt(s1, n, size, r.value.drawn - 1)
    ensures r.Ok? ==> examine(r.value.d) == Accept(r.value.results)
    ensures r.Err? ==>
      (r.error == OutOfFuel || r.error.NoCandidateFound?
       || exists j: nat :: i <= j && examine(DrawAt(s1, n, size, j)) == Abort(r.error))
    decreases fuel
  {
    if M != 0 && i >= M then Err(NoCandidateFound(start - 1 + i))
    else
      var d := DrawAt(s1, n, size, i);
      var v := examine(d);
      if v.Accept? then Ok(Found(d, v.results, i + 1))
      else if v.Abort? then Err(v.failure)
      else if fuel == 0 then Err(OutOfFuel)
      else SearchCandidates(s1, n, size, start, M, i + 1, fuel - 1, examine)
  }

  /** One turn of the candidate loop, with v the verdict on candidate i + 1. */
  lemma SearchCandidatesStep(s1: int, n: int, size: nat, start: int, M: int, i: nat, fuel: nat,
                             examine: int -> Verdict, v: Verdict)
    requires n > 0 && !(M != 0 && i >= M) && v == examine(DrawAt(s1, n, size, i))
    ensures v.Accept? ==>
      SearchCandidates(s1, n, size, start, M, i, fuel, examine) == Ok(Found(DrawAt(s1, n, size, i), v.results, i + 1))
    ensures v.Abort? ==> SearchCandidates(s1, n, size, start, M, i, fuel, examine) == Err(v.failure)
    ensures v.Reject? && fuel == 0 ==> SearchCandidates(s1, n, size, start, M, i, fuel, examine) == Err(OutOfFuel)
    ensures v.Reject? && fuel > 0 ==>
      SearchCandidates(s1, n, size, start, M, i, fuel, examine) == SearchCandidates(s1, n, size, start, M, i + 1, fuel - 1, examine)
  {
  }

  /** The tests end the script only with the errors of the tests themselves. */
  ghost predicate TestErrorsOnly(examine: int -> Verdict)
  {
    forall d :: examine(d).Abort? ==> examine(d).failure in {NoInverse, AssertionFailed}
  }

  /** Every candidate drawn from number from up to (excluding) to is rejected. */
  predicate AllRejected(s1: int, n: int, size: nat, from: nat, to: int, examine: int -> Verdict)
    requires n > 0
  {
    forall j: nat :: from <= j < to ==> examine(DrawAt(s1, n, size, j)).Reject?
  }

  /** The accepted candidate is the first one that passes all eight tests. */
  lemma {:induction false} SearchCandidatesFirst(s1: int, n: int, size: nat, start: int, M: int, i: nat, fuel: nat,
                                                 examine: int -> Verdict)
    requires n > 0 && SearchCandidates(s1, n, size, start, M, i, fuel, examine).Ok?
    ensures AllRejected(s1, n, size, i, SearchCandidates(s1, n, size, start, M, i, fuel, examine).value.drawn - 1, examine)
    decreases fuel
  {
    if !examine(DrawAt(s1, n, size, i)).Accept? {
      SearchCandidatesFirst(s1, n, size, start, M, i + 1, fuel - 1, examine);
    }
  }

  /** With a maximum M, the loop gives up exactly after candidate number
      start - 1 + M (or at once when M < 0), every candidate before having
      been rejected. */
  lemma {:induction false} SearchCandidatesLimit(s1: int, n: int, size: nat, start: int, M: int, i: nat, fuel: nat,
                                                 examine: int -> Verdict, last: int)
    requires n > 0 && SearchCandidates(s1, n, size, start, M, i, fuel, examine) == Err(NoCandidateFound(last))
    requires TestErrorsOnly(examine)
    ensures M != 0 && last == start - 1 + (if i < M then M else i)
    ensures AllRejected(s1, n, size, i, M, examine)
    decreases fuel
  {
    if !(M != 0 && i >= M) {
      var v := examine(DrawAt(s1, n, size, i));
      assert v.Reject? && fuel > 0;
      SearchCandidatesLimit(s1, n, size, start, M, i + 1, fuel - 1, examine, last);
    }
  }

  /** With a positive maximum M and fuel for the M candidates, the loop
      never runs out of fuel. */
  lemma {:induction false} SearchCandidatesBounded(s1: int, n: int, size: nat, start: int, M: int, i: nat, fuel: nat,
                                                   examine: int -> Verdict)
    requires n > 0 && M > 0 && i + fuel >= M && TestErrorsOnly(examine)
    ensures SearchCandidates(s1, n, size, start, M, i, fuel, examine) != Err(OutOfFuel)
    decreases fuel
  {
    if i < M && fuel > 0 {
      SearchCandidatesBounded(s1, n, size, start, M, i + 1, fuel - 1, examine);
    }
  }

  /** The base-point loop from the j-th draw on, with the attempt `attempt`
      (BasePointFrom on the curve's data): y is drawn, and the first attempt
      that gives a point is kept. */
  function SearchBasePoint(s2: int, n: int, size: nat, j: nat, fuel: nat, attempt: int -> PointDraw): (r: Result<(int, int, nat), Failure>)
    requires n > 0
    ensures r.Ok? ==> j < r.value.2
    ensures r.Ok? ==> attempt(DrawAt(s2, n, size, r.value.2 - 1)) == Point(r.value.0, r.value.1)
    ensures r.Err? ==>
      (r.error == OutOfFuel || exists k: nat :: j <= k && attempt(DrawAt(s2, n, size, k)) == Fail(r.error))
    decreases fuel
  {
    var b := attempt(DrawAt(s2, n, size, j));
    if b.Point? then Ok((b.x, b.y, j + 1))
    else if b.Fail? then Err(b.failure)
    else if fuel == 0 then Err(OutOfFuel)
    else SearchBasePoint(s2, n, size, j + 1, fuel - 1, attempt)
  }

  /** One turn of the base-point loop, with b the attempt on the j-th draw. */
  lemma SearchBasePointStep(s2: int, n: int, size: nat, j: nat, fuel: nat, attempt: int -> PointDraw, b: PointDraw)
    requires n > 0 && b == attempt(DrawAt(s2, n, size, j))
    ensures b.Point? ==> SearchBasePoint(s2, n, size, j, fuel, attempt) == Ok((b.x, b.y, j + 1))
    ensures b.Fail? ==> SearchBasePoint(s2, n, size, j, fuel, attempt) == Err(b.failure)
    ensures b.Retry? && fuel == 0 ==> SearchBasePoint(s2, n, size, j, fuel, attempt) == Err(OutOfFuel)
    ensures b.Retry? && fuel > 0 ==>
      SearchBasePoint(s2, n, size, j, fuel, attempt) == SearchBasePoint(s2, n, size, j + 1, fuel - 1, attempt)
  {
  }

  /** The base point lies on the curve and is not the identity; it is the
      point (u^((p + 1) / 4), y) of the curve, doubled twice. */
  lemma BasePointResult(y: int, d: int, p: int)
    requires p >= 3 && p % 4 == 3 && BasePointFrom(y, d, p).Point?
    ensures var b := BasePointFrom(y, d, p);
      OnCurve(b.x, b.y, d, p) && (b.x, b.y) != (0, 1)
    ensures ModInverse(1 - d * y * y, p).Some?
    ensures var u := ((1 - y * y) * ModInverse(1 - d * y * y, p).value) % p;
      var x0 := PowMod(u, (p + 1) / 4, p);
      && Legendre(u, p) != -1
      && OnCurve(x0, y, d, p)
      && AddOnEdwards(x0, y, x0, y, d, p).Some?
      && var (x1, y1) := AddOnEdwards(x0, y, x0, y, d, p).value;
         AddOnEdwards(x1, y1, x1, y1, d, p) == Some((BasePointFrom(y, d, p).x, BasePointFrom(y, d, p).y))
  {
    StartPointOnCurve(y, d, p);
  }

  // ---------------------------------------------------------------------
  // The whole script, as a specification

  lemma PrimeCandidatesAtLeastTwo()
    ensures forall m :: IsPrimeCandidate(m) ==> m >= 2
  {
    forall m | IsPrimeCandidate(m)
      ensures m >= 2
    {
      CandidateAtLeastTwo(m);
    }
  }

  /** The eight tests on the curve's data, as a function of the candidate. */
  function Tests(p: int, sea: (int, int) -> int, factor: int -> seq<PrimePower>): (examine: int -> Verdict)
    requires p >= 3 && p % 4 == 3 && FactorOracle(factor)
    ensures TestErrorsOnly(examine)
  {
    PrimeCandidatesAtLeastTwo();
    d => Examine(d, p, sea, factor, IsPrimeCandidate)
  }

  /** Tests applied to d is Examine with the Miller-Rabin test. */
  lemma TestsAre(p: int, sea: (int, int) -> int, factor: int -> seq<PrimePower>, d: int)
    requires p >= 3 && p % 4 == 3 && FactorOracle(factor)
    ensures forall m :: IsPrimeCandidate(m) ==> m >= 2
    ensures Tests(p, sea, factor)(d) == Examine(d, p, sea, factor, IsPrimeCandidate)
  {
    PrimeCandidatesAtLeastTwo();
  }

  /** The attempts end the script only with the errors of BasePointFrom. */
  ghost predicate AttemptErrorsOnly(attemptFor: int -> int -> PointDraw)
  {
    forall d, y :: attemptFor(d)(y).Fail? ==> attemptFor(d)(y).failure in {NoInverse, AssertionFailed}
  }

  /** Every point the attempts give lies on the curve of its d and is not
      the identity. */
  ghost predicate PointsOnCurve(attemptFor: int -> int -> PointDraw, p: int)
    requires p > 0
  {
    forall d, y :: attemptFor(d)(y).Point? ==>
      OnCurve(attemptFor(d)(y).x, attemptFor(d)(y).y, d, p) && (attemptFor(d)(y).x, attemptFor(d)(y).y) != (0, 1)
  }

  /** The base-point attempts, as a function of the curve's d and of y. */
  function AttemptsFor(p: int): (attemptFor: int -> int -> PointDraw)
    requires p >= 3 && p % 4 == 3
    ensures AttemptErrorsOnly(attemptFor)
  {
    d => y => BasePointFrom(y, d, p)
  }

  lemma AttemptsOnCurve(p: int)
    requires p >= 3 && p % 4 == 3
    ensures PointsOnCurve(AttemptsFor(p), p)
  {
  }

  /** What the script writes out: p, the BBS parameters with the final
      state, the number of the accepted candidate, d with its test results,
      and the base point. */
  datatype CurveOutput = CurveOutput(p: int, bbsP: int, bbsQ: int, bbsS: int, candidateNbr: int,
                                     d: int, results: TestResults, x: int, y: int)

  /** The number of bits skipped for start: size * (start - 1). */
  function Skipped(size: nat, start: int): nat
    requires start >= 1
  {
    MulMonotone(0, start - 1, size);
    size * (start - 1)
  }

  /** The script once its inputs are checked, from the state s1 reached by
      skipping the first start - 1 candidates, with the tests `examine` and
      the base-point attempts `attemptFor`: search for d, then for the base
      point on d's curve. p, bbs_p and bbs_q are passed through to the output. */
  function CurveFrom(p: int, bbsP: int, bbsQ: int, n: int, size: nat, s1: int, start: int, M: int,
                     examine: int -> Verdict, attemptFor: int -> int -> PointDraw,
                     fuel: nat, pointFuel: nat): (r: Result<CurveOutput, Failure>)
    requires n > 0 && TestErrorsOnly(examine) && AttemptErrorsOnly(attemptFor)
    ensures r.Ok? ==> r.value.p == p && r.value.bbsP == bbsP && r.value.bbsQ == bbsQ
    ensures r.Err? ==> r.error in {NoInverse, AssertionFailed, OutOfFuel} || r.error.NoCandidateFound?
  {
    var found := SearchCandidates(s1, n, size, start, M, 0, fuel, examine);
    if found.Err? then Err(found.error)
    else
      WithBasePoint(p, bbsP, bbsQ, n, size, StateAfter(s1, n, size, found.value.drawn), start - 1 + found.value.drawn,
                    found.value, attemptFor(found.value.d), pointFuel)
  }

  /** The second half of the script, from the state s2 after the accepted
      candidate: the base-point loop, then the output. */
  function WithBasePoint(p: int, bbsP: int, bbsQ: int, n: int, size: nat, s2: int, candidateNbr: int, found: Found,
                         attempt: int -> PointDraw, pointFuel: nat): (r: Result<CurveOutput, Failure>)
    requires n > 0
    requires forall y :: attempt(y).Fail? ==> attempt(y).failure in {NoInverse, AssertionFailed}
    ensures r.Ok? ==> r.value.p == p && r.value.bbsP == bbsP && r.value.bbsQ == bbsQ
    ensures r.Ok? ==> r.value.candidateNbr == candidateNbr && r.value.d == found.d && r.value.results == found.results
    ensures r.Err? ==> r.error in {NoInverse, AssertionFailed, OutOfFuel}
  {
    var point := SearchBasePoint(s2, n, size, 0, pointFuel, attempt);
    if point.Err? then Err(point.error)
    else
      Ok(CurveOutput(p, bbsP, bbsQ, StateAfter(s2, n, size, point.value.2), candidateNbr,
                     found.d, found.results, point.value.0, point.value.1))
  }

  /** The script's input checks: bbs_p and bbs_q are strong strong primes,
      p is prime and 3 modulo 4. */
  predicate InputsValid(bbsP: int, bbsQ: int, p: int)
  {
    IsStrongStrongPrime(bbsP) && IsStrongStrongPrime(bbsQ) && IsPrimeCandidate(p) && p % 4 == 3
  }

  lemma ValidInputsBounds(bbsP: int, bbsQ: int, p: int)
    requires InputsValid(bbsP, bbsQ, p)
    ensures bbsP >= 11
    ensures bbsQ >= 11
    ensures p >= 3
  {
    StrongStrongAtLeastEleven(bbsP);
    StrongStrongAtLeastEleven(bbsQ);
    PrimeInputAtLeastThree(p);
  }

  lemma PrimeInputAtLeastThree(p: int)
    requires IsPrimeCandidate(p) && p % 4 == 3
    ensures p >= 3
  {
    CandidateAtLeastTwo(p);
  }

  /** The script once the inputs pass: the state bbs_s mod bbs_p * bbs_q,
      a start of at least 1, M = --max_nbr_of_tests, the eight tests and
      the base-point attempts. */
  function CheckedCurve(bbsP: int, bbsQ: int, bbsS: int, p: int, startArg: int, maxArg: int,
                        sea: (int, int) -> int, factor: int -> seq<PrimePower>, fuel: nat, pointFuel: nat): (r: Result<CurveOutput, Failure>)
    requires bbsP >= 2 && bbsQ >= 2 && p >= 3 && p % 4 == 3 && FactorOracle(factor)
    ensures r.Err? ==> r.error != InvalidPrimeInput
  {
    var start := if startArg > 1 then startArg else 1;
    var size := BitLength(p);
    var s1 := SkipState(bbsS % Modulus(bbsP, bbsQ), Skipped(size, start), bbsP, bbsQ);
    CurveFrom(p, bbsP, bbsQ, Modulus(bbsP, bbsQ), size, s1, start, maxArg, Tests(p, sea, factor), AttemptsFor(p), fuel, pointFuel)
  }

  /** The whole script on bbs_p, bbs_q, bbs_s, p, --start and
      --max_nbr_of_tests (0 when absent). */
  function CurveSpec(bbsP: int, bbsQ: int, bbsS: int, p: int, startArg: int, maxArg: int,
                     sea: (int, int) -> int, factor: int -> seq<PrimePower>, fuel: nat, pointFuel: nat): (r: Result<CurveOutput, Failure>)
    requires FactorOracle(factor)
    ensures !InputsValid(bbsP, bbsQ, p) <==> r == Err(InvalidPrimeInput)
  {
    if !InputsValid(bbsP, bbsQ, p) then Err(InvalidPrimeInput)
    else
      ValidInputsBounds(bbsP, bbsQ, p);
      CheckedCurve(bbsP, bbsQ, bbsS, p, startArg, maxArg, sea, factor, fuel, pointFuel)
  }

  /** What a successful run guarantees about d: it is the draw of candidate
      number candidateNbr counted from the skipped state s1, no earlier
      candidate since start passed the tests, at most M candidates were
      examined, and d passes the tests. */
  lemma CurveCandidate(p: int, bbsP: int, bbsQ: int, n: int, size: nat, s1: int, start: int, M: int,
                       examine: int -> Verdict, attemptFor: int -> int -> PointDraw, fuel: nat, pointFuel: nat)
    requires n > 0 && TestErrorsOnly(examine) && AttemptErrorsOnly(attemptFor)
    requires CurveFrom(p, bbsP, bbsQ, n, size, s1, start, M, examine, attemptFor, fuel, pointFuel).Ok?
    ensures var out := CurveFrom(p, bbsP, bbsQ, n, size, s1, start, M, examine, attemptFor, fuel, pointFuel).value;
      && start <= out.candidateNbr
      && (M != 0 ==> out.candidateNbr <= start + M - 1)
      && out.d == DrawAt(s1, n, size, out.candidateNbr - start)
      && AllRejected(s1, n, size, 0, out.candidateNbr - start, examine)
      && examine(out.d) == Accept(out.results)
  {
    SearchCandidatesFirst(s1, n, size, start, M, 0, fuel, examine);
  }

  /** The base point of a successful run is the attempt on the k-th y drawn
      after d, for some k, and the generator is left after that draw. */
  lemma CurvePoint(p: int, bbsP: int, bbsQ: int, n: int, size: nat, s1: int, start: int, M: int,
                   examine: int -> Verdict, attemptFor: int -> int -> PointDraw, fuel: nat, pointFuel: nat)
    requires n > 0 && TestErrorsOnly(examine) && AttemptErrorsOnly(attemptFor)
    requires CurveFrom(p, bbsP, bbsQ, n, size, s1, start, M, examine, attemptFor, fuel, pointFuel).Ok?
    ensures var out := CurveFrom(p, bbsP, bbsQ, n, size, s1, start, M, examine, attemptFor, fuel, pointFuel).value;
      var s2 := StateAfter(s1, n, size, out.candidateNbr - start + 1);
      exists k: nat :: && attemptFor(out.d)(DrawAt(s2, n, size, k)) == Point(out.x, out.y)
                       && out.bbsS == StateAfter(s2, n, size, k + 1)
  {
    var found := SearchCandidates(s1, n, size, start, M, 0, fuel, examine);
    var s2 := StateAfter(s1, n, size, found.value.drawn);
    var point := SearchBasePoint(s2, n, size, 0, pointFuel, attemptFor(found.value.d));
    var k: nat := point.value.2 - 1;
    assert attemptFor(found.value.d)(DrawAt(s2, n, size, k)) == Point(point.value.0, point.value.1);
  }

  /** With attempts that only give points of d's curve other than the
      identity, so does a successful run. */
  lemma CurvePointOnCurve(p: int, bbsP: int, bbsQ: int, n: int, size: nat, s1: int, start: int, M: int,
                          examine: int -> Verdict, attemptFor: int -> int -> PointDraw, fuel: nat, pointFuel: nat)
    requires n > 0 && p > 0 && TestErrorsOnly(examine) && AttemptErrorsOnly(attemptFor) && PointsOnCurve(attemptFor, p)
    requires CurveFrom(p, bbsP, bbsQ, n, size, s1, start, M, examine, attemptFor, fuel, pointFuel).Ok?
    ensures var out := CurveFrom(p, bbsP, bbsQ, n, size, s1, start, M, examine, attemptFor, fuel, pointFuel).value;
      OnCurve(out.x, out.y, out.d, p) && (out.x, out.y) != (0, 1)
  {
    CurvePoint(p, bbsP, bbsQ, n, size, s1, start, M, examine, attemptFor, fuel, pointFuel);
  }

  /** The accepted d and its test results: 0 < d < p, d is a non-residue
      modulo p, both cardinalities are 4 times a prime, and they add up to
      2p + 2. */
  lemma CurveAccepted(bbsP: int, bbsQ: int, bbsS: int, p: int, startArg: int, maxArg: int,
                      sea: (int, int) -> int, factor: int -> seq<PrimePower>, fuel: nat, pointFuel: nat)
    requires bbsP >= 2 && bbsQ >= 2 && p >= 3 && p % 4 == 3 && FactorOracle(factor)
    requires CheckedCurve(bbsP, bbsQ, bbsS, p, startArg, maxArg, sea, factor, fuel, pointFuel).Ok?
    ensures var out := CheckedCurve(bbsP, bbsQ, bbsS, p, startArg, maxArg, sea, factor, fuel, pointFuel).value;
      && 0 < out.d < p && Legendre(out.d, p) == -1
      && IsPrimeCandidate(out.results.q) && IsPrimeCandidate(out.results.qTwist)
      && out.results.cardinality == 4 * out.results.q
      && out.results.cardinalityTwist == 2 * p + 2 - out.results.cardinality
  {
    var start := if startArg > 1 then startArg else 1;
    var n, size := Modulus(bbsP, bbsQ), BitLength(p);
    var s1 := SkipState(bbsS % n, Skipped(size, start), bbsP, bbsQ);
    var out := CheckedCurve(bbsP, bbsQ, bbsS, p, startArg, maxArg, sea, factor, fuel, pointFuel).value;
    CurveCandidate(p, bbsP, bbsQ, n, size, s1, start, maxArg, Tests(p, sea, factor), AttemptsFor(p), fuel, pointFuel);
    TestsAre(p, sea, factor, out.d);
    ExamineAccepted(out.d, p, sea, factor, IsPrimeCandidate);
  }

  /** The base point of a successful run lies on the curve with the
      accepted d and is not the identity. */
  lemma CurveBasePoint(bbsP: int, bbsQ: int, bbsS: int, p: int, startArg: int, maxArg: int,
                       sea: (int, int) -> int, factor: int -> seq<PrimePower>, fuel: nat, pointFuel: nat)
    requires bbsP >= 2 && bbsQ >= 2 && p >= 3 && p % 4 == 3 && FactorOracle(factor)
    requires CheckedCurve(bbsP, bbsQ, bbsS, p, startArg, maxArg, sea, factor, fuel, pointFuel).Ok?
    ensures var out := CheckedCurve(bbsP, bbsQ, bbsS, p, startArg, maxArg, sea, factor, fuel, pointFuel).value;
      OnCurve(out.x, out.y, out.d, p) && (out.x, out.y) != (0, 1)
  {
    var start := if startArg > 1 then startArg else 1;
    var n, size := Modulus(bbsP, bbsQ), BitLength(p);
    var s1 := SkipState(bbsS % n, Skipped(size, start), bbsP, bbsQ);
    AttemptsOnCurve(p);
    CurvePointOnCurve(p, bbsP, bbsQ, n, size, s1, start, maxArg, Tests(p, sea, factor), AttemptsFor(p), fuel, pointFuel);
  }

  lemma SkippedThenMore(size: nat, start: int, i: nat)
    requires start >= 1
    ensures Skipped(size, start) + i * size == (start - 1 + i) * size
  {
    assert size * (start - 1) == (start - 1) * size;
  }

  /** Each draw takes size bits whatever test rejects the candidate, so
      with s^((p - 1)(q - 1)) = 1 (mod n) (Euler's theorem, for s coprime to
      n) the i-th draw after skipping start - 1 candidates is the draw of
      candidate number start + i counted from the very first one: a run
      with --start sees the same candidates as a run from 1. */
  lemma SkipKeepsCandidates(bbsP: int, bbsQ: int, s0: int, size: nat, start: int, i: nat)
    requires bbsP >= 2 && bbsQ >= 2 && 0 <= s0 < Modulus(bbsP, bbsQ) && start >= 1
    requires PowMod(s0, Totient(bbsP, bbsQ), Modulus(bbsP, bbsQ)) == 1
    ensures DrawAt(SkipState(s0, Skipped(size, start), bbsP, bbsQ), Modulus(bbsP, bbsQ), size, i)
      == DrawAt(s0, Modulus(bbsP, bbsQ), size, start - 1 + i)
  {
    var n := Modulus(bbsP, bbsQ);
    var a := Skipped(size, start);
    SkipMatchesSquarings(s0, a, bbsP, bbsQ);
    var j: nat := start - 1 + i;
    MulMonotone(0, i, size);
    SquaringsAdd(s0, a, i * size, n);
    SkippedThenMore(size, start, i);
    assert StateAfter(SkipState(s0, a, bbsP, bbsQ), n, size, i) == StateAfter(s0, n, size, j);
  }

  // ---------------------------------------------------------------------
  // The script, step by step

  /** size bits from the generator folded into an integer, most
      significant first: how both d and y are drawn. */
  method DrawInteger(bbs: BBS, size: nat) returns (v: nat)
    requires bbs.Valid()
    modifies bbs
    ensures bbs.Valid() && bbs.p == old(bbs.p) && bbs.q == old(bbs.q) && bbs.n == old(bbs.n)
    ensures bbs.s == Squarings(old(bbs.s), size, bbs.n)
    ensures v == BitsValue(old(bbs.s), size, bbs.n)
  {
    BitsValueIsFromBits(bbs.s, size, bbs.n);
    var bits := bbs.GenBits(size);
    v := FoldBits(bits);
  }

  /** The eight tests on d as the loop body runs them, each rejection
      moving on to the next candidate. */
  method ExamineCandidate(d: int, p: int, sea: (int, int) -> int, factor: int -> seq<PrimePower>, isPrime: int -> bool)
    returns (v: Verdict)
    requires p >= 3 && p % 4 == 3 && FactorOracle(factor)
    requires forall n :: isPrime(n) ==> n >= 2
    ensures v == Examine(d, p, sea, factor, isPrime)
  {
    if !(d != 0 && d < p) {
      return Reject(1);
    }
    if Legendre(d, p) != -1 {
      return Reject(2);
    }
    var w := WeierstrassFromEdwards(1, d, p);
    if w.None? {
      return Abort(NoInverse);
    }
    var cardinality := sea(w.value.0, w.value.1);
    v := TestCardinality(cardinality, p, factor, isPrime);
  }

  /** Tests 3 to 5 of the loop body, with the assertions on the cardinality. */
  method TestCardinality(cardinality: int, p: int, factor: int -> seq<PrimePower>, isPrime: int -> bool)
    returns (v: Verdict)
    requires p >= 3 && p % 4 == 3 && FactorOracle(factor)
    requires forall n :: isPrime(n) ==> n >= 2
    ensures v == ExamineCardinality(cardinality, p, factor, isPrime)
  {
    if cardinality % 4 != 0 {
      return Abort(AssertionFailed);
    }
    var q := cardinality / 4;
    if !isPrime(q) {
      return Reject(3);
    }
    var trace := p + 1 - cardinality;
    var cardinalityTwist := p + 1 + trace;
    TwistDivisible(p, cardinality);
    assert cardinalityTwist % 4 == 0;
    var qTwist := cardinalityTwist / 4;
    if !isPrime(qTwist) {
      return Reject(4);
    }
    if !(q != p && qTwist != p) {
      return Reject(5);
    }
    assert ExamineCardinality(cardinality, p, factor, isPrime)
      == ExamineSecurity(p, cardinality, q, cardinalityTwist, qTwist, trace, factor);
    v := TestSecurity(p, cardinality, q, cardinalityTwist, qTwist, trace, factor);
  }

  /** Tests 6 to 8 of the loop body. */
  method TestSecurity(p: int, cardinality: int, q: int, cardinalityTwist: int, qTwist: int, trace: int,
                      factor: int -> seq<PrimePower>) returns (v: Verdict)
    requires q >= 2 && qTwist >= 2 && FactorOracle(factor)
    ensures v == ExamineSecurity(p, cardinality, q, cardinalityTwist, qTwist, trace, factor)
  {
    var degree := EmbeddingDegree(p, q, factor(q - 1), XorAsWritten);
    if !(degree > (q - 1) / 100) {
      return Reject(6);
    }
    var degreeTwist := EmbeddingDegree(p, qTwist, factor(qTwist - 1), XorAsWritten);
    if !(degreeTwist > (qTwist - 1) / 100) {
      return Reject(7);
    }
    var D := 0;
    if trace * trace - 4 * p != 0 {
      D := CmFieldDiscriminant(p, trace, factor(trace * trace - 4 * p));
    }
    if !(Abs(D) >= DISCRIMINANT_BOUND) {
      return Reject(8);
    }
    v := Accept(TestResults(cardinality, q, cardinalityTwist, qTwist, trace, degree, degreeTwist, D));
  }

  /** One turn of the candidate loop: draw candidate number i + 1 after the
      skipped ones and put it through the tests. */
  method TryCurveCandidate(bbs: BBS, size: nat, examine: int -> Verdict, ghost s1: int, ghost i: nat)
    returns (d: nat, v: Verdict)
    requires bbs.Valid() && bbs.s == StateAfter(s1, bbs.n, size, i)
    modifies bbs
    ensures bbs.Valid() && bbs.p == old(bbs.p) && bbs.q == old(bbs.q) && bbs.n == old(bbs.n)
    ensures bbs.s == StateAfter(s1, bbs.n, size, i + 1)
    ensures d == DrawAt(s1, bbs.n, size, i) && v == examine(d)
  {
    d := DrawInteger(bbs, size);
    DrawsAreConsecutive(s1, bbs.n, size, i);
    v := examine(d);
  }

  /** The candidate loop: stop after M candidates (M = 0: no limit), draw
      the next candidate and examine it, until one is accepted. */
  method FindCandidate(bbs: BBS, size: nat, start: int, M: int, fuel: nat, examine: int -> Verdict)
    returns (r: Result<Found, Failure>)
    requires bbs.Valid()
    modifies bbs
    ensures bbs.Valid() && bbs.p == old(bbs.p) && bbs.q == old(bbs.q) && bbs.n == old(bbs.n)
    ensures r == SearchCandidates(old(bbs.s), bbs.n, size, start, M, 0, fuel, examine)
    ensures r.Ok? ==> bbs.s == StateAfter(old(bbs.s), bbs.n, size, r.value.drawn)
  {
    ghost var s1 := bbs.s;
    ghost var n := bbs.n;
    ghost var spec := SearchCandidates(s1, n, size, start, M, 0, fuel, examine);
    var i: nat := 0;
    var f: nat := fuel;
    while true
      invariant bbs.Valid() && bbs.p == old(bbs.p) && bbs.q == old(bbs.q) && bbs.n == n
      invariant bbs.s == StateAfter(s1, n, size, i)
      invariant SearchCandidates(s1, n, size, start, M, i, f, examine) == spec
      decreases f
    {
      if M != 0 && i >= M {
        return Err(NoCandidateFound(start - 1 + i));
      }
      var d, v := TryCurveCandidate(bbs, size, examine, s1, i);
      SearchCandidatesStep(s1, n, size, start, M, i, f, examine, v);
      if v.Accept? {
        return Ok(Found(d, v.results, i + 1));
      }
      if v.Abort? {
        return Err(v.failure);
      }
      if f == 0 {
        return Err(OutOfFuel);
      }
      i, f := i + 1, f - 1;
    }
  }

  /** One turn of the base-point loop: draw y and attempt a point. */
  method TryBasePoint(bbs: BBS, size: nat, attempt: int -> PointDraw, ghost s2: int, ghost j: nat) returns (b: PointDraw)
    requires bbs.Valid() && bbs.s == StateAfter(s2, bbs.n, size, j)
    modifies bbs
    ensures bbs.Valid() && bbs.p == old(bbs.p) && bbs.q == old(bbs.q) && bbs.n == old(bbs.n)
    ensures bbs.s == StateAfter(s2, bbs.n, size, j + 1)
    ensures b == attempt(DrawAt(s2, bbs.n, size, j))
  {
    var y := DrawInteger(bbs, size);
    DrawsAreConsecutive(s2, bbs.n, size, j);
    b := attempt(y);
  }

  /** The base-point loop: draw y and attempt a point (BasePointFrom on
      the curve's data) until one is found. */
  method FindBasePoint(bbs: BBS, size: nat, attempt: int -> PointDraw, fuel: nat) returns (r: Result<(int, int, nat), Failure>)
    requires bbs.Valid()
    modifies bbs
    ensures bbs.Valid() && bbs.p == old(bbs.p) && bbs.q == old(bbs.q) && bbs.n == old(bbs.n)
    ensures r == SearchBasePoint(old(bbs.s), bbs.n, size, 0, fuel, attempt)
    ensures r.Ok? ==> bbs.s == StateAfter(old(bbs.s), bbs.n, size, r.value.2)
  {
    ghost var s2 := bbs.s;
    ghost var n := bbs.n;
    ghost var spec := SearchBasePoint(s2, n, size, 0, fuel, attempt);
    var j: nat := 0;
    var f: nat := fuel;
    while true
      invariant bbs.Valid() && bbs.p == old(bbs.p) && bbs.q == old(bbs.q) && bbs.n == n
      invariant bbs.s == StateAfter(s2, n, size, j)
      invariant SearchBasePoint(s2, n, size, j, f, attempt) == spec
      decreases f
    {
      var b := TryBasePoint(bbs, size, attempt, s2, j);
      SearchBasePointStep(s2, n, size, j, f, attempt, b);
      if b.Point? {
        return Ok((b.x, b.y, j + 1));
      }
      if b.Fail? {
        return Err(b.failure);
      }
      if f == 0 {
        return Err(OutOfFuel);
      }
      j, f := j + 1, f - 1;
    }
  }

  /** The base-point loop after the accepted candidate, then the output:
      p, the BBS parameters and final state, the candidate's number, d and
      its test results, and the base point. */
  method FinishCurve(bbs: BBS, size: nat, p: int, candidateNbr: int, found: Found,
                     attempt: int -> PointDraw, pointFuel: nat)
    returns (r: Result<CurveOutput, Failure>)
    requires bbs.Valid()
    requires forall y :: attempt(y).Fail? ==> attempt(y).failure in {NoInverse, AssertionFailed}
    modifies bbs
    ensures bbs.Valid() && bbs.p == old(bbs.p) && bbs.q == old(bbs.q) && bbs.n == old(bbs.n)
    ensures r == WithBasePoint(p, bbs.p, bbs.q, bbs.n, size, old(bbs.s), candidateNbr, found, attempt, pointFuel)
  {
    var point := FindBasePoint(bbs, size, attempt, pointFuel);
    if point.Err? {
      return Err(point.error);
    }
    var (x, y, _) := point.value;
    r := Ok(CurveOutput(p, bbs.p, bbs.q, bbs.s, candidateNbr, found.d, found.results, x, y));
  }

  /** CurveFrom split at the end of the candidate loop. */
  lemma CurveFromHalves(p: int, bbsP: int, bbsQ: int, n: int, size: nat, s1: int, start: int, M: int,
                        examine: int -> Verdict, attemptFor: int -> int -> PointDraw, fuel: nat, pointFuel: nat,
                        found: Result<Found, Failure>)
    requires n > 0 && TestErrorsOnly(examine) && AttemptErrorsOnly(attemptFor)
    requires found == SearchCandidates(s1, n, size, start, M, 0, fuel, examine)
    ensures found.Err? ==> CurveFrom(p, bbsP, bbsQ, n, size, s1, start, M, examine, attemptFor, fuel, pointFuel) == Err(found.error)
    ensures found.Ok? ==>
      CurveFrom(p, bbsP, bbsQ, n, size, s1, start, M, examine, attemptFor, fuel, pointFuel)
      == WithBasePoint(p, bbsP, bbsQ, n, size, StateAfter(s1, n, size, found.value.drawn), start - 1 + found.value.drawn,
                       found.value, attemptFor(found.value.d), pointFuel)
  {
  }

  /** The two loops of the script on a started generator: find d, then
      the base point on its curve. */
  method SearchCurve(bbs: BBS, size: nat, start: int, M: int, p: int,
                     examine: int -> Verdict, attemptFor: int -> int -> PointDraw, fuel: nat, pointFuel: nat)
    returns (r: Result<CurveOutput, Failure>)
    requires bbs.Valid() && TestErrorsOnly(examine) && AttemptErrorsOnly(attemptFor)
    modifies bbs
    ensures bbs.Valid() && bbs.p == old(bbs.p) && bbs.q == old(bbs.q) && bbs.n == old(bbs.n)
    ensures r == CurveFrom(p, bbs.p, bbs.q, bbs.n, size, old(bbs.s), start, M, examine, attemptFor, fuel, pointFuel)
  {
    ghost var s1 := bbs.s;
    var found := FindCandidate(bbs, size, start, M, fuel, examine);
    CurveFromHalves(p, bbs.p, bbs.q, bbs.n, size, s1, start, M, examine, attemptFor, fuel, pointFuel, found);
    if found.Err? {
      return Err(found.error);
    }
    r := FinishCurve(bbs, size, p, start - 1 + found.value.drawn, found.value, attemptFor(found.value.d), pointFuel);
  }

  /** The script once the inputs pass: start the generator on bbs_s mod n,
      skip the first start - 1 candidates, then search. */
  method RunChecked(bbsP: int, bbsQ: int, bbsS: int, p: int, startArg: int, maxArg: int,
                    sea: (int, int) -> int, factor: int -> seq<PrimePower>, fuel: nat, pointFuel: nat)
    returns (r: Result<CurveOutput, Failure>)
    requires bbsP >= 11 && bbsQ >= 11 && p >= 3 && p % 4 == 3 && FactorOracle(factor)
    ensures r == CheckedCurve(bbsP, bbsQ, bbsS, p, startArg, maxArg, sea, factor, fuel, pointFuel)
  {
    var n := Modulus(bbsP, bbsQ);
    var s0 := bbsS % n;
    var start := if startArg > 1 then startArg else 1;
    var bbs := new BBS(bbsP, bbsQ, s0, 0);
    MulMonotone(10, bbsP - 1, bbsQ - 1);
    StartWithoutShift(bbsP, bbsQ, s0);
    DivModUnique(s0, n, 0, s0);
    var size := BitLength(p);
    bbs.SkipBits(Skipped(size, start));
    r := SearchCurve(bbs, size, start, maxArg, p, Tests(p, sea, factor), AttemptsFor(p), fuel, pointFuel);
  }

  /** The script: check that bbs_p and bbs_q are strong strong primes and p
      a prime congruent to 3 modulo 4, then run. */
  method GenerateCurve(bbsP: int, bbsQ: int, bbsS: int, p: int, startArg: int, maxArg: int,
                       sea: (int, int) -> int, factor: int -> seq<PrimePower>, fuel: nat, pointFuel: nat)
    returns (r: Result<CurveOutput, Failure>)
    requires FactorOracle(factor)
    ensures r == CurveSpec(bbsP, bbsQ, bbsS, p, startArg, maxArg, sea, factor, fuel, pointFuel)
  {
    if !IsStrongStrongPrime(bbsP) || !IsStrongStrongPrime(bbsQ) {
      return Err(InvalidPrimeInput);
    }
    if !(IsPrimeCandidate(p) && p % 4 == 3) {
      return Err(InvalidPrimeInput);
    }
    ValidInputsBounds(bbsP, bbsQ, p);
    r := RunChecked(bbsP, bbsQ, bbsS, p, startArg, maxArg, sea, factor, fuel, pointFuel);
  }
}
