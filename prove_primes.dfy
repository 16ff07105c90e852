/** The Pocklington prover: for every input that passes the pseudo-primality
    test, factor N - 1 far enough that the factored part A exceeds the square
    root of N, do the same for every prime factor used, find a witness a_p
    for every such factor, and re-check each certificate. */
module ProvePrimes {
  import opened Wrappers
  import opened Arith
  import opened Subroutines

  // ---------------------------------------------------------------------
  // Finite sets of integers

  /** The largest element of a non-empty finite set. */
  lemma {:induction false} MaxOf(s: set<int>) returns (top: int)
    requires s != {}
    ensures top in s && forall x :: x in s ==> x <= top
    decreases |s|
  {
    assert (forall x :: x !in s) ==> s == {};
    var y :| y in s;
    var rest := s - {y};
    assert forall x :: x in s ==> x == y || x in rest;
    if rest != {} {
      var m := MaxOf(rest);
      top := if m < y then y else m;
    } else {
      assert forall x :: x !in rest;
      top := y;
    }
  }

  /** The smallest element of a non-empty finite set. */
  lemma {:induction false} MinOf(s: set<int>) returns (bottom: int)
    requires s != {}
    ensures bottom in s && forall x :: x in s ==> bottom <= x
    decreases |s|
  {
    assert (forall x :: x !in s) ==> s == {};
    var y :| y in s;
    var rest := s - {y};
    assert forall x :: x in s ==> x == y || x in rest;
    if rest != {} {
      var m := MinOf(rest);
      bottom := if y < m then y else m;
    } else {
      assert forall x :: x !in rest;
      bottom := y;
    }
  }

  // ---------------------------------------------------------------------
  // Rows of a factorisation

  lemma {:induction false} FactorProductSplit(fs: seq<PrimePower>, k: nat)
    requires k <= |fs|
    ensures FactorProduct(fs[..k]) * FactorProduct(fs[k..]) == FactorProduct(fs)
  {
    if k > 0 {
      FactorProductSplit(fs[1..], k - 1);
      assert fs[1..][..k - 1] == fs[..k][1..];
      assert fs[1..][k - 1..] == fs[k..];
      MulAssoc(Pow(fs[0].prime, fs[0].mult), FactorProduct(fs[..k][1..]), FactorProduct(fs[k..]));
    } else {
      assert fs[k..] == fs;
    }
  }

  /** Taking one more row from the top multiplies the product by that row. */
  lemma FactorProductExtend(fs: seq<PrimePower>, k: nat)
    requires 0 < k <= |fs|
    ensures FactorProduct(fs[k - 1..]) == FactorProduct(fs[k..]) * Pow(fs[k - 1].prime, fs[k - 1].mult)
  {
    assert fs[k - 1..][1..] == fs[k..];
  }

  /** Every row of a factorisation divides the factored integer, and so is
      at most that integer when the integer is positive. */
  lemma {:induction false} RowDivides(fs: seq<PrimePower>, i: nat)
    requires i < |fs| && fs[i].prime >= 2 && fs[i].mult >= 1
    ensures FactorProduct(fs) % fs[i].prime == 0
  {
    var q := fs[i].prime;
    var head, tail := Pow(fs[0].prime, fs[0].mult), FactorProduct(fs[1..]);
    assert FactorProduct(fs) == head * tail;
    if i == 0 {
      DividesMultiple(head, q, Pow(q, fs[0].mult - 1));
      DividesFactor(q, head, tail);
    } else {
      RowDivides(fs[1..], i - 1);
      DividesFactor(q, tail, head);
      assert tail * head == head * tail;
    }
  }

  lemma RowAtMostProduct(fs: seq<PrimePower>, i: nat)
    requires i < |fs| && fs[i].prime >= 2 && fs[i].mult >= 1 && FactorProduct(fs) > 0
    ensures fs[i].prime <= FactorProduct(fs)
  {
    RowDivides(fs, i);
    ExactQuotient(FactorProduct(fs), fs[i].prime);
    var k := FactorProduct(fs) / fs[i].prime;
    if k <= 0 {
      MulMonotone(k, 0, fs[i].prime);
    } else {
      MulMonotone(1, k, fs[i].prime);
    }
  }

  /** A suffix of a factorisation is a factorisation of its own product. */
  lemma SuffixFactorization(fs: seq<PrimePower>, n: int, j: nat)
    requires IsPositiveFactorization(fs, n) && j <= |fs|
    ensures IsPositiveFactorization(fs[j..], FactorProduct(fs[j..]))
  {
  }

  // ---------------------------------------------------------------------
  // The large factors of p - 1 (the first loop of main)

  /** The top rows fs[k..] multiply to more than the square root of p. */
  predicate Enough(fs: seq<PrimePower>, k: nat, p: int)
    requires k <= |fs|
  {
    FactorProduct(fs[k..]) * FactorProduct(fs[k..]) > p
  }

  lemma WholeIsEnough(fs: seq<PrimePower>, p: int)
    requires p >= 3 && FactorProduct(fs) == p - 1
    ensures Enough(fs, 0, p)
  {
    assert fs[0..] == fs;
    MulMonotone(2, p - 1, p - 1);
  }

  /** The index the popping loop stops at, when it has reached k: rows are
      popped from the top until their product exceeds the square root of p. */
  function TakeFrom(fs: seq<PrimePower>, p: int, k: nat): (j: nat)
    requires p >= 3 && FactorProduct(fs) == p - 1 && k <= |fs|
    ensures j <= k && Enough(fs, j, p)
    ensures forall i :: j < i <= k ==> !Enough(fs, i, p)
    decreases k
  {
    if k == 0 then (WholeIsEnough(fs, p); k)
    else if Enough(fs, k, p) then k
    else TakeFrom(fs, p, k - 1)
  }

  lemma TakeFromStep(fs: seq<PrimePower>, p: int, k: nat)
    requires p >= 3 && FactorProduct(fs) == p - 1 && 0 < k <= |fs| && !Enough(fs, k, p)
    ensures TakeFrom(fs, p, k) == TakeFrom(fs, p, k - 1)
  {
  }

  lemma TakeFromStop(fs: seq<PrimePower>, p: int, k: nat)
    requires p >= 3 && FactorProduct(fs) == p - 1 && k <= |fs| && Enough(fs, k, p)
    ensures TakeFrom(fs, p, k) == k
  {
  }

  /** large_factors[p]: the shortest run of top rows of the factorisation of
      p - 1 whose product A satisfies A * A > p, in ascending order. */
  function LargeFactorsOf(p: int, fs: seq<PrimePower>): (large: seq<PrimePower>)
    requires p >= 3 && IsPositiveFactorization(fs, p - 1)
    ensures forall i :: 0 <= i < |large| ==> large[i].prime >= 2 && large[i].mult >= 1
  {
    fs[TakeFrom(fs, p, |fs|)..]
  }

  /** What the first loop promises about large_factors[p]: a factorisation
      (ascending rows) of a divisor A of p - 1 with A * A > p, whose rows are
      below p and divide p - 1, and which is as short as that allows. */
  lemma LargeFactorsProperties(p: int, fs: seq<PrimePower>)
    requires p >= 3 && IsPositiveFactorization(fs, p - 1)
    ensures var large := LargeFactorsOf(p, fs);
      && IsPositiveFactorization(large, FactorProduct(large))
      && FactorProduct(large) * FactorProduct(large) > p
      && (p - 1) % FactorProduct(large) == 0
      && |large| >= 1
      && FactorProduct(large[1..]) * FactorProduct(large[1..]) <= p
      && (forall i :: 0 <= i < |large| ==> 2 <= large[i].prime < p && (p - 1) % large[i].prime == 0)
  {
    var j := TakeFrom(fs, p, |fs|);
    var large := fs[j..];
    SuffixFactorization(fs, p - 1, j);
    assert fs[|fs|..] == [];
    assert !Enough(fs, |fs|, p);
    assert large[1..] == fs[j + 1..];
    assert !Enough(fs, j + 1, p);
    FactorProductSplit(fs, j);
    FactorProductPositive(fs[..j]);
    FactorProductPositive(large);
    MulInts(FactorProduct(fs[..j]), FactorProduct(large), p - 1);
    forall i | 0 <= i < |large|
      ensures 2 <= large[i].prime < p && (p - 1) % large[i].prime == 0
    {
      assert large[i] == fs[j + i];
      RowDivides(fs, j + i);
      RowAtMostProduct(fs, j + i);
    }
  }

  lemma MulInts(b: int, a: int, n: int)
    requires a > 0 && b * a == n
    ensures n % a == 0
  {
    DividesMultiple(n, a, b);
  }

  lemma {:induction false} ReversedReversed<T>(s: seq<T>)
    ensures Reversed(Reversed(s)) == s
  {
    if s != [] {
      ReversedReversed(s[1..]);
      ReversedAppend(Reversed(s[1..]), s[0]);
      assert [s[0]] + s[1..] == s;
    }
  }

  lemma {:induction false} ReversedAppend<T>(s: seq<T>, x: T)
    ensures Reversed(s + [x]) == [x] + Reversed(s)
  {
    if s != [] {
      assert (s + [x])[1..] == s[1..] + [x];
      ReversedAppend(s[1..], x);
    } else {
      assert Reversed([x]) == Reversed([x][1..]) + [x];
    }
  }

  /** list(reversed(s)). */
  function Reversed<T>(s: seq<T>): (r: seq<T>)
    ensures |r| == |s|
  {
    if s == [] then [] else Reversed(s[1..]) + [s[0]]
  }

  /** The inner loop for one p: pop rows from the end of factor(p - 1)
      while A <= sqrt(p), multiplying A by each, then reverse the popped
      rows. The pop never meets an empty list: with every row popped,
      A = p - 1, and (p - 1)^2 > p. */
  method TopFactors(p: int, allFactors: seq<PrimePower>) returns (large: seq<PrimePower>)
    requires p >= 3 && IsPositiveFactorization(allFactors, p - 1)
    ensures large == LargeFactorsOf(p, allFactors)
  {
    var rest := allFactors;
    var a := 1;
    var f: seq<PrimePower> := [];
    assert allFactors[|allFactors|..] == [];
    while a * a <= p
      invariant rest == allFactors[..|rest|]
      invariant a == FactorProduct(allFactors[|rest|..])
      invariant f == Reversed(allFactors[|rest|..])
      invariant TakeFrom(allFactors, p, |rest|) == TakeFrom(allFactors, p, |allFactors|)
      decreases |rest|
    {
      var k := |rest|;
      if k == 0 {
        WholeIsEnough(allFactors, p);
        assert false;
      }
      TakeFromStep(allFactors, p, k);
      var last := rest[k - 1];
      rest := rest[..k - 1];
      FactorProductExtend(allFactors, k);
      a := a * Pow(last.prime, last.mult);
      assert allFactors[k - 1..] == [last] + allFactors[k..];
      f := f + [last];
    }
    TakeFromStop(allFactors, p, |rest|);
    ReversedReversed(allFactors[|rest|..]);
    large := Reversed(f);
  }

  /** The primes of a list of rows. */
  function RowPrimes(f: seq<PrimePower>): (s: set<int>)
    ensures forall i :: 0 <= i < |f| ==> f[i].prime in s
    ensures forall q :: q in s ==> exists i :: 0 <= i < |f| && f[i].prime == q
  {
    set i | 0 <= i < |f| :: f[i].prime
  }

  /** What the first loop leaves: every key N is at least 3 and maps to
      the large factors of N - 1, and the rows of every list are 2 or keys. */
  ghost predicate Closed(large: map<int, seq<PrimePower>>, factor: int -> seq<PrimePower>)
    requires FactorOracle(factor)
  {
    && 2 !in large
    && (forall n :: n in large ==> n >= 3 && large[n] == LargeFactorsOf(n, factor(n - 1)))
    && (forall n, i :: n in large && 0 <= i < |large[n]| ==> large[n][i].prime == 2 || large[n][i].prime in large)
  }

  /** The invariant of the large_factors loop: pending integers lie in
      [2, bound), recorded ones at or above bound, every recorded list is
      the large factors of N - 1, every row is 2, recorded or pending, and
      every input other than 2 is recorded or pending. */
  ghost predicate Pending(inputs: set<int>, factor: int -> seq<PrimePower>, pending: set<int>,
                          large: map<int, seq<PrimePower>>, bound: int)
    requires FactorOracle(factor)
  {
    && (forall x :: x in pending ==> 2 <= x < bound)
    && 2 !in large
    && Recorded(large, factor, bound)
    && RowsCovered(large, pending)
    && (forall n :: n in inputs && n != 2 ==> n in large || n in pending)
  }

  /** Every recorded N is at least bound and 3 and maps to the large
      factors of N - 1. */
  ghost predicate Recorded(large: map<int, seq<PrimePower>>, factor: int -> seq<PrimePower>, bound: int)
    requires FactorOracle(factor)
  {
    forall n :: n in large ==> n >= bound && n >= 3 && large[n] == LargeFactorsOf(n, factor(n - 1))
  }

  lemma RecordedUpdate(large: map<int, seq<PrimePower>>, factor: int -> seq<PrimePower>, bound: int, p: int)
    requires FactorOracle(factor) && Recorded(large, factor, bound) && 3 <= p < bound
    ensures Recorded(large[p := LargeFactorsOf(p, factor(p - 1))], factor, p)
  {
  }

  /** Every row prime of a recorded list is 2, recorded, or pending. */
  predicate RowsCovered(large: map<int, seq<PrimePower>>, pending: set<int>)
  {
    forall n, i :: n in large && 0 <= i < |large[n]| ==>
      large[n][i].prime == 2 || large[n][i].prime in large || large[n][i].prime in pending
  }

  /** Taking 2, the largest pending integer, records nothing. */
  lemma PendingSkipTwo(inputs: set<int>, factor: int -> seq<PrimePower>, pending: set<int>,
                       large: map<int, seq<PrimePower>>, bound: int)
    requires FactorOracle(factor) && Pending(inputs, factor, pending, large, bound)
    requires 2 in pending && forall x :: x in pending ==> x <= 2
    ensures 2 < bound && Pending(inputs, factor, pending - {2}, large, 2)
  {
  }

  /** Taking the largest pending p other than 2 records its large factors,
      whose primes are all below p, and adds them to the pending set. */
  lemma PendingRecord(inputs: set<int>, factor: int -> seq<PrimePower>, pending: set<int>,
                      large: map<int, seq<PrimePower>>, bound: int, p: int)
    requires FactorOracle(factor) && Pending(inputs, factor, pending, large, bound)
    requires p in pending && p != 2 && forall x :: x in pending ==> x <= p
    ensures 3 <= p < bound
    ensures var f := LargeFactorsOf(p, factor(p - 1));
      Pending(inputs, factor, pending - {p} + RowPrimes(f), large[p := f], p)
  {
    var f := LargeFactorsOf(p, factor(p - 1));
    LargeFactorsProperties(p, factor(p - 1));
    var pending', large' := pending - {p} + RowPrimes(f), large[p := f];
    RecordKeepsBounds(inputs, factor, pending, large, bound, p);
    RecordedUpdate(large, factor, bound, p);
    RecordKeepsRows(inputs, factor, pending, large, bound, p);
    assert forall n :: n in inputs && n != 2 ==> n in large' || n in pending';
  }

  lemma RecordKeepsBounds(inputs: set<int>, factor: int -> seq<PrimePower>, pending: set<int>,
                          large: map<int, seq<PrimePower>>, bound: int, p: int)
    requires FactorOracle(factor) && Pending(inputs, factor, pending, large, bound)
    requires p in pending && p != 2 && forall x :: x in pending ==> x <= p
    ensures var f := LargeFactorsOf(p, factor(p - 1));
      && (forall x :: x in pending && x != p ==> 2 <= x < p)
      && (forall x :: x in RowPrimes(f) ==> 2 <= x < p)
  {
    LargeFactorsProperties(p, factor(p - 1));
  }

  lemma RecordKeepsRows(inputs: set<int>, factor: int -> seq<PrimePower>, pending: set<int>,
                        large: map<int, seq<PrimePower>>, bound: int, p: int)
    requires FactorOracle(factor) && Pending(inputs, factor, pending, large, bound)
    requires p in pending && p != 2
    ensures var f := LargeFactorsOf(p, factor(p - 1));
      RowsCovered(large[p := f], pending - {p} + RowPrimes(f))
  {
    var f := LargeFactorsOf(p, factor(p - 1));
    var pending': set<int> := pending - {p} + RowPrimes(f);
    var large': map<int, seq<PrimePower>> := large[p := f];
    forall n, i | n in large' && 0 <= i < |large'[n]|
      ensures large'[n][i].prime == 2 || large'[n][i].prime in large' || large'[n][i].prime in pending'
    {
      if n != p {
        assert large'[n] == large[n];
      }
    }
  }

  /** With nothing pending, the recorded lists are closed. */
  lemma PendingDone(inputs: set<int>, factor: int -> seq<PrimePower>, large: map<int, seq<PrimePower>>, bound: int)
    requires FactorOracle(factor) && Pending(inputs, factor, {}, large, bound)
    ensures Closed(large, factor)
    ensures forall n :: n in inputs && n != 2 ==> n in large
  {
  }

  /** x is an input, or a row prime of the list recorded for a larger key:
      the first loop adds nothing else. */
  ghost predicate FromInputs(inputs: set<int>, large: map<int, seq<PrimePower>>, x: int)
  {
    x in inputs || exists m :: m in large && x < m && x in RowPrimes(large[m])
  }

  /** Every recorded and every pending integer comes from the inputs. */
  ghost predicate Traced(inputs: set<int>, large: map<int, seq<PrimePower>>, pending: set<int>)
  {
    forall x :: x in large || x in pending ==> FromInputs(inputs, large, x)
  }

  /** Recording p keeps every integer traced: the old witnesses stay, and
      the new rows are traced to p itself. */
  lemma TracedRecord(inputs: set<int>, factor: int -> seq<PrimePower>, pending: set<int>,
                     large: map<int, seq<PrimePower>>, p: int)
    requires FactorOracle(factor) && Traced(inputs, large, pending)
    requires p in pending && p >= 3 && p !in large
    ensures var f := LargeFactorsOf(p, factor(p - 1));
      Traced(inputs, large[p := f], pending - {p} + RowPrimes(f))
  {
    var f := LargeFactorsOf(p, factor(p - 1));
    LargeFactorsProperties(p, factor(p - 1));
    var large' := large[p := f];
    forall x | x in large' || x in pending - {p} + RowPrimes(f)
      ensures FromInputs(inputs, large', x)
    {
      if x in RowPrimes(f) {
        assert p in large' && x < p && x in RowPrimes(large'[p]);
      } else if x !in inputs {
        assert FromInputs(inputs, large, x);
        var m :| m in large && x < m && x in RowPrimes(large[m]);
        assert m != p && large'[m] == large[m];
      }
    }
  }

  /** The large_factors loop: take the largest pending integer, skip 2,
      and record its large factors, adding their primes to the pending set.
      Every integer taken is smaller than the previous one, since each new
      prime divides p - 1, so every integer is taken once. */
  method BuildLargeFactors(inputs: set<int>, factor: int -> seq<PrimePower>)
    returns (large: map<int, seq<PrimePower>>)
    requires FactorOracle(factor)
    requires forall n :: n in inputs ==> n >= 2
    ensures Closed(large, factor)
    ensures forall n :: n in inputs && n != 2 ==> n in large
    ensures forall n :: n in large ==> FromInputs(inputs, large, n)
  {
    var pending := inputs;
    large := map[];
    if pending == {} {
      return;
    }
    ghost var first := MaxOf(pending);
    ghost var bound := first + 1;
    while pending != {}
      invariant Pending(inputs, factor, pending, large, bound)
      invariant Traced(inputs, large, pending)
      decreases bound
    {
      ghost var top := MaxOf(pending);
      var p :| p in pending && forall x :: x in pending ==> x <= p;
      if p == 2 {
        PendingSkipTwo(inputs, factor, pending, large, bound);
        pending := pending - {p};
        bound := p;
        continue;
      }
      PendingRecord(inputs, factor, pending, large, bound, p);
      TracedRecord(inputs, factor, pending, large, p);
      var f := TopFactors(p, factor(p - 1));
      pending := pending - {p} + RowPrimes(f);
      large := large[p := f];
      bound := p;
    }
    PendingDone(inputs, factor, large, bound);
  }

  // ---------------------------------------------------------------------
  // Witnesses (the second loop of main)

  /** The Pocklington condition for a and the factor p of N - 1:
      a^(N - 1) = 1 (mod N) and gcd(a^((N - 1) / p) - 1, N) = 1. */
  predicate IsWitness(a: int, n: int, p: int)
    requires n >= 2 && p >= 1
  {
    PowMod(a, n - 1, n) == 1 && Gcd(PowMod(a, (n - 1) / p, n) - 1, n) == 1
  }

  /** The scan `for a_p in range(2, N)` from a on: the first witness, or
      N - 1, the last value of the loop variable, when there is none. */
  function WitnessFrom(n: int, p: int, a: int): (r: int)
    requires 2 <= a < n && p >= 1
    ensures a <= r < n
    decreases n - a
  {
    if IsWitness(a, n, p) || a == n - 1 then a else WitnessFrom(n, p, a + 1)
  }

  /** The scan from a returns the first witness at or after a, or N - 1
      when there is none. */
  lemma {:induction false} WitnessFromFirst(n: int, p: int, a: int)
    requires 2 <= a < n && p >= 1
    ensures forall b :: a <= b < WitnessFrom(n, p, a) ==> !IsWitness(b, n, p)
    ensures IsWitness(WitnessFrom(n, p, a), n, p)
      || (WitnessFrom(n, p, a) == n - 1 && forall b :: a <= b < n ==> !IsWitness(b, n, p))
    decreases n - a
  {
    if !IsWitness(a, n, p) && a < n - 1 {
      WitnessFromFirst(n, p, a + 1);
    }
  }

  function Witness(n: int, p: int): int
    requires n >= 3 && p >= 1
  {
    WitnessFrom(n, p, 2)
  }

  predicate HasWitness(n: int, p: int)
    requires n >= 3 && p >= 1
  {
    exists b :: 2 <= b < n && IsWitness(b, n, p)
  }

  /** The scan finds a witness exactly when one exists in [2, N), and then
      the least one. */
  lemma WitnessFound(n: int, p: int)
    requires n >= 3 && p >= 1
    ensures IsWitness(Witness(n, p), n, p) <==> HasWitness(n, p)
    ensures 2 <= Witness(n, p) < n
    ensures forall b :: 2 <= b < Witness(n, p) ==> !IsWitness(b, n, p)
  {
    WitnessFromFirst(n, p, 2);
    if HasWitness(n, p) {
      var b :| 2 <= b < n && IsWitness(b, n, p);
      assert IsWitness(Witness(n, p), n, p);
    }
  }

  /** The inner for-loop, with its two `continue` tests and its `break`. */
  method FindWitness(n: int, p: int) returns (a: int)
    requires n >= 3 && p >= 1
    ensures a == Witness(n, p)
  {
    a := 2;
    while true
      invariant 2 <= a < n
      invariant WitnessFrom(n, p, a) == Witness(n, p)
      decreases n - a
    {
      if IsWitness(a, n, p) {
        return;
      }
      if a == n - 1 {
        return;
      }
      a := a + 1;
    }
  }

  /** The dictionary a built for N: a[p] for every row p, in row order. */
  function WitnessMap(n: int, f: seq<PrimePower>): map<int, int>
    requires n >= 3 && forall i :: 0 <= i < |f| ==> f[i].prime >= 1
  {
    if f == [] then map[]
    else WitnessMap(n, f[..|f| - 1])[f[|f| - 1].prime := Witness(n, f[|f| - 1].prime)]
  }

  lemma {:induction false} WitnessMapRows(n: int, f: seq<PrimePower>)
    requires n >= 3 && forall i :: 0 <= i < |f| ==> f[i].prime >= 1
    ensures WitnessMap(n, f).Keys == RowPrimes(f)
    ensures forall i :: 0 <= i < |f| ==> WitnessMap(n, f)[f[i].prime] == Witness(n, f[i].prime)
  {
    if f != [] {
      var init := f[..|f| - 1];
      WitnessMapRows(n, init);
      assert forall i :: 0 <= i < |init| ==> init[i] == f[i];
      assert RowPrimes(f) == RowPrimes(init) + {f[|f| - 1].prime};
    }
  }

  /** The loop over the rows of f for one N. The assertion that every row
      divides N - 1 holds by the precondition, which the first loop supplies. */
  method Witnesses(n: int, f: seq<PrimePower>) returns (a: map<int, int>)
    requires RowsDivide(n, f)
    ensures a == WitnessMap(n, f)
  {
    a := map[];
    for i := 0 to |f|
      invariant a == WitnessMap(n, f[..i])
    {
      var p := f[i].prime;
      assert (n - 1) % p == 0;
      var ap := FindWitness(n, p);
      assert f[..i + 1][..i] == f[..i];
      a := a[p := ap];
    }
    assert f[..|f|] == f;
  }

  /** proven_primes[N]: [] for N = 2, and otherwise the pair of the large
      factors of N - 1 and the witness dictionary. */
  datatype Proof = Trivial | Pocklington(factors: seq<PrimePower>, witnesses: map<int, int>)

  function ProofOf(n: int, f: seq<PrimePower>): Proof
    requires n >= 3 && forall i :: 0 <= i < |f| ==> f[i].prime >= 1
  {
    Pocklington(f, WitnessMap(n, f))
  }

  /** What the first loop hands the second: keys at least 3, rows at least
      2 and dividing N - 1. */
  predicate LargeShape(large: map<int, seq<PrimePower>>)
  {
    forall n :: n in large ==> RowsDivide(n, large[n])
  }

  /** N is at least 3 and every row of f is at least 2 and divides N - 1. */
  predicate RowsDivide(n: int, f: seq<PrimePower>)
  {
    && n >= 3
    && forall i :: 0 <= i < |f| ==> f[i].prime >= 2 && (n - 1) % f[i].prime == 0
  }

  /** The proven_primes loop: take the smallest remaining N, pop its
      factors, and record its proof. */
  method BuildProofs(large: map<int, seq<PrimePower>>) returns (proven: map<int, Proof>)
    requires 2 !in large && LargeShape(large)
    ensures forall n :: n in proven <==> n == 2 || n in large
    ensures proven[2] == Trivial
    ensures forall n :: n in large ==> proven[n] == ProofOf(n, large[n])
  {
    var remaining := large.Keys;
    proven := map[2 := Trivial];
    while remaining != {}
      invariant remaining <= large.Keys
      invariant forall n :: n in proven <==> n == 2 || (n in large && n !in remaining)
      invariant proven[2] == Trivial
      invariant forall n :: n in proven && n != 2 ==> proven[n] == ProofOf(n, large[n])
      invariant forall n, m :: n in proven && n != 2 && m in remaining ==> n < m
      decreases |remaining|
    {
      ghost var bottom := MinOf(remaining);
      var n :| n in remaining && forall m :: m in remaining ==> n <= m;
      var f := large[n];
      remaining := remaining - {n};
      var a := Witnesses(n, f);
      proven := proven[n := Pocklington(f, a)];
    }
  }

  // ---------------------------------------------------------------------
  // The final checks (the third loop of main)

  /** The assertion of line 138 as written: gcd(a^((N - 1) / p) mod N, N) = 1,
      without the "- 1" of the search and of the printed statement. */
  predicate RowCheckAsWritten(a: int, n: int, p: int)
    requires n >= 2 && p >= 1
  {
    PowMod(a, n - 1, n) == 1 && Gcd(PowMod(a, (n - 1) / p, n), n) == 1
  }

  lemma DividesCombination(g: int, x: int, y: int, s: int, t: int)
    requires g > 0 && x % g == 0 && y % g == 0
    ensures (s * x + t * y) % g == 0
  {
    var kx, ky := x / g, y / g;
    assert x == g * kx && y == g * ky;
    assert s * x + t * y == g * (s * kx + t * ky);
    DividesMultiple(s * x + t * y, g, s * kx + t * ky);
  }

  /** The as-written gcd test can never fail once a^(N - 1) = 1 (mod N):
      a common divisor of a^e mod N and N divides a^(N - 1) and so 1. */
  lemma RowCheckAsWrittenRedundant(a: int, n: int, e: nat)
    requires n >= 2 && e <= n - 1 && PowMod(a, n - 1, n) == 1
    ensures Gcd(PowMod(a, e, n), n) == 1
  {
    var x := PowMod(a, e, n);
    GcdNatDivides(x, n);
    var g := GcdNat(x, n);
    DividesReduced(g, Pow(a, e), n);
    PowAdd(a, e, n - 1 - e);
    DividesFactor(g, Pow(a, e), Pow(a, n - 1 - e));
    DividesUnitResidue(g, Pow(a, n - 1), n);
    assert Gcd(x, n) == g;
  }

  /** A common divisor of n and y mod n divides y. */
  lemma DividesReduced(g: int, y: int, n: int)
    requires g > 0 && n > 0 && n % g == 0 && (y % n) % g == 0
    ensures y % g == 0
  {
    assert y == (y / n) * n + 1 * (y % n);
    DividesCombination(g, n, y % n, y / n, 1);
  }

  /** A common divisor of n and of some y = 1 (mod n) is 1. */
  lemma DividesUnitResidue(g: int, y: int, n: int)
    requires g > 0 && n > 0 && n % g == 0 && y % g == 0 && y % n == 1
    ensures g == 1
  {
    assert 1 * y + -(y / n) * n == 1;
    DividesCombination(g, y, n, 1, -(y / n));
    if g > 1 {
      DivModUnique(1, g, 0, 1);
    }
  }

  lemma DividesFactor(g: int, x: int, k: int)
    requires g > 0 && x % g == 0
    ensures (x * k) % g == 0
  {
    var q := x / g;
    assert x == g * q;
    MulAssoc(g, q, k);
    DividesMultiple(x * k, g, q * k);
  }

  /** The record N = 7, p = 2, a_p = 2 passes the as-written test, although
      2^3 - 1 = 7 shares the factor 7 with N. */
  lemma RowCheckAsWrittenAcceptsNonWitness()
    ensures RowCheckAsWritten(2, 7, 2) && !IsWitness(2, 7, 2)
  {
    assert Pow(2, 6) == 64;
    assert Pow(2, 3) == 8;
    assert PowMod(2, 6, 7) == 1;
    assert PowMod(2, 3, 7) == 1;
    assert Gcd(1, 7) == 1;
    assert Gcd(0, 7) == 7;
  }

  /** The assertions on A made once per N: A = prod p^m divides N - 1,
      gcd(A, B) = 1 for B = (N - 1) / A, and A > sqrt(N). */
  predicate FactoredPartChecks(n: int, f: seq<PrimePower>)
    requires forall i :: 0 <= i < |f| ==> f[i].prime >= 2
  {
    FactorProductPositive(f);
    var big := FactorProduct(f);
    && (n - 1) % big == 0
    && Gcd(big, (n - 1) / big) == 1
    && big * big > n
  }

  /** The certificate as the printing loop asserts it: the checks on A,
      and for every row a_p^(N - 1) = 1 (mod N) and the gcd test of line
      138 as written. */
  predicate ProofChecks(n: int, proof: Proof)
    requires ProofShape(n, proof)
  {
    match proof
    case Trivial => true
    case Pocklington(f, a) =>
      && FactoredPartChecks(n, f)
      && forall i :: 0 <= i < |f| ==> RowCheckAsWritten(a[f[i].prime], n, f[i].prime)
  }

  /** The Pocklington certificate the program means to check: the checks
      on A, and every row has its witness, with the "- 1" of the search. */
  predicate ProofChecksIntended(n: int, proof: Proof)
    requires ProofShape(n, proof)
  {
    match proof
    case Trivial => true
    case Pocklington(f, a) =>
      && FactoredPartChecks(n, f)
      && forall i :: 0 <= i < |f| ==> IsWitness(a[f[i].prime], n, f[i].prime)
  }

  /** What the checking loop reads without failing: N at least 3, rows at
      least 2, each with an entry in the witness dictionary. */
  predicate ProofShape(n: int, proof: Proof)
  {
    proof.Pocklington? ==>
      && n >= 3
      && forall i :: 0 <= i < |proof.factors| ==> proof.factors[i].prime >= 2 && proof.factors[i].prime in proof.witnesses
  }

  /** As written, the row assertions reduce to a_p^(N - 1) = 1 (mod N):
      the gcd test never fails once that holds. */
  lemma ProofChecksAsWrittenIsFermat(n: int, f: seq<PrimePower>, a: map<int, int>)
    requires ProofShape(n, Pocklington(f, a))
    ensures ProofChecks(n, Pocklington(f, a)) <==>
      && FactoredPartChecks(n, f)
      && forall i :: 0 <= i < |f| ==> PowMod(a[f[i].prime], n - 1, n) == 1
  {
    forall i | 0 <= i < |f|
      ensures RowCheckAsWritten(a[f[i].prime], n, f[i].prime) <==> PowMod(a[f[i].prime], n - 1, n) == 1
    {
      RowAsWrittenIsFermat(a[f[i].prime], n, f[i].prime);
    }
  }

  /** One row: the gcd test as written holds whenever the Fermat test does. */
  lemma RowAsWrittenIsFermat(a: int, n: int, p: int)
    requires n >= 2 && p >= 1
    ensures RowCheckAsWritten(a, n, p) <==> PowMod(a, n - 1, n) == 1
  {
    if PowMod(a, n - 1, n) == 1 {
      QuotientAtMost(n - 1, p);
      RowCheckAsWrittenRedundant(a, n, (n - 1) / p);
    }
  }

  lemma QuotientAtMost(x: nat, p: int)
    requires p >= 1
    ensures 0 <= x / p <= x
  {
    DivModUnique(x, p, x / p, x % p);
    if x / p > x {
      MulMonotone(x + 1, x / p, p);
      MulMonotone(1, p, x + 1);
    }
  }

  /** Every certificate the intended check accepts passes as written. */
  lemma IntendedChecksPassAsWritten(n: int, proof: Proof)
    requires ProofShape(n, proof) && ProofChecksIntended(n, proof)
    ensures ProofChecks(n, proof)
  {
    if proof.Pocklington? {
      ProofChecksAsWrittenIsFermat(n, proof.factors, proof.witnesses);
    }
  }

  /** For N = 9 the scan finds no witness for p = 2 and leaves a_2 = 8,
      the last value of its loop; the certificate it builds passes every
      assertion as written, although 9 is not prime. */
  lemma NineCertificateAsWritten()
    ensures ProofOf(9, [PrimePower(2, 3)]) == Pocklington([PrimePower(2, 3)], map[2 := 8])
    ensures ProofChecks(9, Pocklington([PrimePower(2, 3)], map[2 := 8]))
    ensures !ProofChecksIntended(9, Pocklington([PrimePower(2, 3)], map[2 := 8]))
    ensures !HasWitness(9, 2)
  {
    NineNoWitness();
    NineWitnessMap();
    NineFactoredPart();
    NineRowCheck();
  }

  lemma NineRowCheck()
    ensures RowCheckAsWritten(8, 9, 2) && !IsWitness(8, 9, 2)
  {
    assert Pow(8, 4) == 4096 && Pow(8, 8) == 16777216;
    assert Gcd(1, 9) == 1;
    assert Gcd(0, 9) == 9;
  }

  lemma NineWitnessMap()
    ensures WitnessMap(9, [PrimePower(2, 3)]) == map[2 := Witness(9, 2)]
  {
    var f := [PrimePower(2, 3)];
    assert f[..0] == [];
  }

  lemma NineFactoredPart()
    ensures FactoredPartChecks(9, [PrimePower(2, 3)])
  {
    var f := [PrimePower(2, 3)];
    assert FactorProduct(f) == 8 by { assert f[1..] == []; }
    assert Gcd(8, 1) == 1;
  }

  /** No a in [2, 9) has a^8 = 1 (mod 9) except 8, and 8^4 - 1 shares 3
      with 9. */
  lemma NineNoWitness()
    ensures forall b :: 2 <= b < 9 ==> !IsWitness(b, 9, 2)
    ensures Witness(9, 2) == 8
  {
    assert Pow(2, 8) == 256 && Pow(3, 8) == 6561 && Pow(4, 8) == 65536 && Pow(5, 8) == 390625;
    assert Pow(6, 8) == 1679616 && Pow(7, 8) == 5764801 && Pow(8, 4) == 4096;
    assert Gcd(0, 9) == 9;
    assert WitnessFrom(9, 2, 2) == 8;
  }

  /** For a proof the program builds, A | N - 1 and A > sqrt(N) hold by
      construction, so the intended check passes exactly when gcd(A, B) = 1
      and every prime of A has a witness in [2, N). */
  lemma BuiltProofChecks(n: int, fs: seq<PrimePower>)
    requires n >= 3 && IsPositiveFactorization(fs, n - 1)
    ensures var f := LargeFactorsOf(n, fs);
      && ProofShape(n, ProofOf(n, f))
      && (ProofChecksIntended(n, ProofOf(n, f)) <==>
          Gcd(FactorProduct(f), (n - 1) / FactorProduct(f)) == 1
          && forall i :: 0 <= i < |f| ==> HasWitness(n, f[i].prime))
  {
    var f := LargeFactorsOf(n, fs);
    LargeFactorsProperties(n, fs);
    WitnessMapRows(n, f);
    forall i | 0 <= i < |f|
      ensures IsWitness(WitnessMap(n, f)[f[i].prime], n, f[i].prime) <==> HasWitness(n, f[i].prime)
    {
      WitnessFound(n, f[i].prime);
    }
  }

  /** For a proof the program builds, the assertions as written pass
      exactly when gcd(A, B) = 1 and every a_p found has a_p^(N - 1) = 1
      (mod N). */
  lemma BuiltProofChecksAsWritten(n: int, fs: seq<PrimePower>)
    requires n >= 3 && IsPositiveFactorization(fs, n - 1)
    ensures var f := LargeFactorsOf(n, fs);
      && ProofShape(n, ProofOf(n, f))
      && (ProofChecks(n, ProofOf(n, f)) <==>
          Gcd(FactorProduct(f), (n - 1) / FactorProduct(f)) == 1
          && forall i :: 0 <= i < |f| ==> PowMod(Witness(n, f[i].prime), n - 1, n) == 1)
  {
    var f := LargeFactorsOf(n, fs);
    LargeFactorsProperties(n, fs);
    WitnessMapRows(n, f);
    ProofChecksAsWrittenIsFermat(n, f, WitnessMap(n, f));
  }

  /** `for p, m in f: A *= p**m`. */
  method ProductOf(f: seq<PrimePower>) returns (big: int)
    ensures big == FactorProduct(f)
  {
    big := 1;
    var i := |f|;
    while i > 0
      invariant 0 <= i <= |f|
      invariant big == FactorProduct(f[i..])
    {
      i := i - 1;
      assert f[i..][1..] == f[i + 1..];
      big := Pow(f[i].prime, f[i].mult) * big;
    }
    assert f[0..] == f;
  }

  /** The checks for one N; false where an assertion of the source fails. */
  method CheckProof(n: int, f: seq<PrimePower>, a: map<int, int>) returns (ok: bool)
    requires ProofShape(n, Pocklington(f, a))
    ensures ok == ProofChecks(n, Pocklington(f, a))
  {
    FactorProductPositive(f);
    var big := ProductOf(f);
    if (n - 1) % big != 0 {
      return false;
    }
    var rest := (n - 1) / big;
    if Gcd(big, rest) != 1 || big * big <= n {
      return false;
    }
    assert FactoredPartChecks(n, f);
    for i := 0 to |f|
      invariant forall j :: 0 <= j < i ==> RowCheckAsWritten(a[f[j].prime], n, f[j].prime)
    {
      var p := f[i].prime;
      if !RowCheckAsWritten(a[p], n, p) {
        return false;
      }
    }
    return true;
  }

  /** The printing loop over proven_primes in ascending order, with its
      assertions; false where one fails. */
  method VerifyProofs(proven: map<int, Proof>) returns (ok: bool)
    requires forall n :: n in proven ==> ProofShape(n, proven[n])
    ensures ok <==> forall n :: n in proven ==> ProofChecks(n, proven[n])
  {
    var remaining := proven.Keys;
    while remaining != {}
      invariant remaining <= proven.Keys
      invariant forall n :: n in proven && n !in remaining ==> ProofChecks(n, proven[n])
      decreases |remaining|
    {
      ghost var bottom := MinOf(remaining);
      var n :| n in remaining && forall m :: m in remaining ==> n <= m;
      remaining := remaining - {n};
      match proven[n]
      case Trivial =>
      case Pocklington(f, a) =>
        var pass := CheckProof(n, f, a);
        if !pass {
          return false;
        }
    }
    return true;
  }

  // ---------------------------------------------------------------------
  // main

  /** The first input that fails the pseudo-primality test, if any. */
  function FirstNotPrime(integers: seq<int>): (r: Option<int>)
    ensures r.None? <==> forall i :: 0 <= i < |integers| ==> IsPrimeCandidate(integers[i])
    ensures r.Some? ==> exists i ::
      && 0 <= i < |integers| && integers[i] == r.value && !IsPrimeCandidate(r.value)
      && forall j :: 0 <= j < i ==> IsPrimeCandidate(integers[j])
  {
    if integers == [] then None
    else if !IsPrimeCandidate(integers[0]) then Some(integers[0])
    else
      var r := FirstNotPrime(integers[1..]);
      assert forall i :: 1 <= i < |integers| ==> integers[i] == integers[1..][i - 1];
      if r.Some? then
        var i :| 0 <= i < |integers[1..]| && integers[1..][i] == r.value && !IsPrimeCandidate(r.value)
          && forall j :: 0 <= j < i ==> IsPrimeCandidate(integers[1..][j]);
        assert integers[i + 1] == r.value;
        r
      else r
  }

  /** The argument check: stop at the first input that is not a pseudo-prime. */
  method CheckInputs(integers: seq<int>) returns (r: Option<int>)
    ensures r == FirstNotPrime(integers)
  {
    for i := 0 to |integers|
      invariant FirstNotPrime(integers) == FirstNotPrime(integers[i..])
    {
      assert integers[i..][1..] == integers[i + 1..];
      var pass := DeterministicIsPseudoPrime(integers[i], DEFAULT_BASES);
      if !pass {
        return Some(integers[i]);
      }
    }
    return None;
  }

  /** The table main builds: a proof for 2, a Pocklington proof from the
      large factors of N - 1 for every other input and every prime used by
      a proof, and nothing else: every other key is a row prime of the
      proof of a larger key. */
  ghost predicate ProvenTable(integers: seq<int>, factor: int -> seq<PrimePower>, proven: map<int, Proof>)
    requires FactorOracle(factor)
  {
    && 2 in proven && proven[2] == Trivial
    && (forall i :: 0 <= i < |integers| ==> integers[i] in proven)
    && (forall n :: n in proven && n != 2 ==>
          n >= 3 && proven[n] == ProofOf(n, LargeFactorsOf(n, factor(n - 1))))
    && (forall n, i :: n in proven && proven[n].Pocklington? && 0 <= i < |proven[n].factors| ==>
          proven[n].factors[i].prime in proven)
    && (forall n :: n in proven && n != 2 && n !in integers ==>
          exists m :: m in proven && n < m && proven[m].Pocklington? && n in RowPrimes(proven[m].factors))
  }

  /** What main produces on success: the table, and every certificate in
      it passes the checks as written. */
  ghost predicate ProvenFor(integers: seq<int>, factor: int -> seq<PrimePower>, proven: map<int, Proof>)
    requires FactorOracle(factor)
  {
    && ProvenTable(integers, factor, proven)
    && (forall n :: n in proven ==> ProofShape(n, proven[n]) && ProofChecks(n, proven[n]))
  }

  /** The outcome of the printing loop on a table: the table, or
      AssertionFailed when a certificate fails an assertion. */
  function MainOutcome(table: map<int, Proof>): (r: Result<map<int, Proof>, Failure>)
    ensures r.Ok? <==> forall n :: n in table ==> ProofShape(n, table[n]) && ProofChecks(n, table[n])
    ensures r.Ok? ==> r.value == table
    ensures r.Err? ==> r.error == AssertionFailed
  {
    if forall n :: n in table ==> ProofShape(n, table[n]) && ProofChecks(n, table[n])
    then Ok(table) else Err(AssertionFailed)
  }

  /** The inputs and the oracle determine the table: two tables with the
      properties above are equal. */
  lemma ProvenTableUnique(integers: seq<int>, factor: int -> seq<PrimePower>, t1: map<int, Proof>, t2: map<int, Proof>)
    requires FactorOracle(factor)
    requires ProvenTable(integers, factor, t1) && ProvenTable(integers, factor, t2)
    ensures t1 == t2
  {
    var top1 := MaxOf(t1.Keys);
    var top2 := MaxOf(t2.Keys);
    forall n | n in t1
      ensures n in t2
    {
      KeyInBoth(integers, factor, t1, t2, n, top1);
    }
    forall n | n in t2
      ensures n in t1
    {
      KeyInBoth(integers, factor, t2, t1, n, top2);
    }
    assert t1.Keys == t2.Keys;
    assert forall n :: n in t1 ==> t1[n] == t2[n];
  }

  /** A key of one table is a key of the other: by induction down from the
      largest key, since every key is an input or a row prime of a larger
      key, whose proof both tables share. */
  lemma {:induction false} KeyInBoth(integers: seq<int>, factor: int -> seq<PrimePower>,
                                     t1: map<int, Proof>, t2: map<int, Proof>, n: int, top: int)
    requires FactorOracle(factor)
    requires ProvenTable(integers, factor, t1) && ProvenTable(integers, factor, t2)
    requires n in t1 && forall k :: k in t1 ==> k <= top
    ensures n in t2
    decreases top - n
  {
    if n == 2 {
    } else if n in integers {
      var i :| 0 <= i < |integers| && integers[i] == n;
    } else {
      var m := LargerKey(integers, factor, t1, n);
      KeyInBoth(integers, factor, t1, t2, m, top);
      RowOfSharedKey(integers, factor, t1, t2, m, n);
    }
  }

  lemma LargerKey(integers: seq<int>, factor: int -> seq<PrimePower>, t: map<int, Proof>, n: int)
    returns (m: int)
    requires FactorOracle(factor) && ProvenTable(integers, factor, t)
    requires n in t && n != 2 && n !in integers
    ensures m in t && n < m && t[m].Pocklington? && n in RowPrimes(t[m].factors)
  {
    m :| m in t && n < m && t[m].Pocklington? && n in RowPrimes(t[m].factors);
  }

  /** A row prime of a key of both tables is a key of the second. */
  lemma RowOfSharedKey(integers: seq<int>, factor: int -> seq<PrimePower>,
                       t1: map<int, Proof>, t2: map<int, Proof>, m: int, n: int)
    requires FactorOracle(factor)
    requires ProvenTable(integers, factor, t1) && ProvenTable(integers, factor, t2)
    requires m in t1 && m in t2 && m != 2 && t1[m].Pocklington? && n in RowPrimes(t1[m].factors)
    ensures n in t2
  {
    assert t2[m] == t1[m];
    var i :| 0 <= i < |t2[m].factors| && t2[m].factors[i].prime == n;
  }

  /** The maps of the first two loops form the table. */
  lemma BuiltTable(integers: seq<int>, factor: int -> seq<PrimePower>, inputs: set<int>,
                   large: map<int, seq<PrimePower>>, proven: map<int, Proof>)
    requires FactorOracle(factor)
    requires inputs == set i | 0 <= i < |integers| :: integers[i]
    requires Closed(large, factor)
    requires forall n :: n in inputs && n != 2 ==> n in large
    requires forall n :: n in large ==> FromInputs(inputs, large, n)
    requires forall n :: n in proven <==> n == 2 || n in large
    requires proven[2] == Trivial
    requires forall n :: n in large ==> proven[n] == ProofOf(n, large[n])
    ensures ProvenTable(integers, factor, proven)
  {
    forall i | 0 <= i < |integers|
      ensures integers[i] in proven
    {
      assert integers[i] in inputs;
      if integers[i] != 2 {
        assert integers[i] in large;
      }
    }
    forall n | n in proven && n != 2 && n !in integers
      ensures exists m :: m in proven && n < m && proven[m].Pocklington? && n in RowPrimes(proven[m].factors)
    {
      assert n !in inputs;
      assert FromInputs(inputs, large, n);
      var m :| m in large && n < m && n in RowPrimes(large[m]);
      assert proven[m].factors == large[m];
    }
  }

  /** main: NotPrime for the first input that fails the test, otherwise the
      proofs, or AssertionFailed when a final check fails. */
  method ProvePrimesMain(integers: seq<int>, factor: int -> seq<PrimePower>) returns (r: Result<map<int, Proof>, Failure>)
    requires FactorOracle(factor)
    ensures FirstNotPrime(integers).Some? ==> r == Err(NotPrime(FirstNotPrime(integers).value))
    ensures FirstNotPrime(integers).None? ==> r.Ok? || r == Err(AssertionFailed)
    ensures r.Ok? ==> ProvenFor(integers, factor, r.value)
    ensures FirstNotPrime(integers).None? ==>
      exists table :: ProvenTable(integers, factor, table) && r == MainOutcome(table)
  {
    var bad := CheckInputs(integers);
    if bad.Some? {
      return Err(NotPrime(bad.value));
    }
    forall i | 0 <= i < |integers|
      ensures integers[i] >= 2
    {
      CandidateAtLeastTwo(integers[i]);
    }
    var inputs := set i | 0 <= i < |integers| :: integers[i];
    var large: map<int, seq<PrimePower>> := BuildLargeFactors(inputs, factor);
    forall n: int | n in large
      ensures forall i :: 0 <= i < |large[n]| ==> (n - 1) % large[n][i].prime == 0
    {
      LargeFactorsProperties(n, factor(n - 1));
    }
    var proven := BuildProofs(large);
    BuiltTable(integers, factor, inputs, large, proven);
    forall n | n in proven
      ensures ProofShape(n, proven[n])
    {
      if n != 2 {
        BuiltProofChecks(n, factor(n - 1));
      }
    }
    var ok := VerifyProofs(proven);
    if !ok {
      return Err(AssertionFailed);
    }
    r := Ok(proven);
  }

  // ---------------------------------------------------------------------
  // factors_to_string

  function DigitChar(d: nat): (c: char)
    requires d < 10
  {
    "0123456789"[d]
  }

  /** "%d" of a non-negative integer. */
  function NatToString(x: nat): (s: string)
    ensures |s| >= 1 && forall i :: 0 <= i < |s| ==> '0' <= s[i] <= '9'
  {
    if x < 10 then [DigitChar(x)] else NatToString(x / 10) + [DigitChar(x % 10)]
  }

  /** The value of a string of decimal digits. */
  function ParseDecimal(s: string): (x: int)
    requires forall i :: 0 <= i < |s| ==> '0' <= s[i] <= '9'
  {
    if s == [] then 0 else 10 * ParseDecimal(s[..|s| - 1]) + (s[|s| - 1] as int - '0' as int)
  }

  /** Reading back a rendered integer gives the integer. */
  lemma {:induction false} NatToStringRoundTrip(x: nat)
    ensures ParseDecimal(NatToString(x)) == x
  {
    var s := NatToString(x);
    if x >= 10 {
      NatToStringRoundTrip(x / 10);
      assert s[..|s| - 1] == NatToString(x / 10);
    }
  }

  /** "%d" of any integer. */
  function IntToString(x: int): (s: string)
  {
    if x < 0 then "-" + NatToString(-x) else NatToString(x)
  }

  function RowString(r: PrimePower): (s: string)
  {
    IntToString(r.prime) + "^" + IntToString(r.mult)
  }

  /** Each row rendered as "p^m". */
  function Rendered(f: seq<PrimePower>): (parts: seq<string>)
    ensures |parts| == |f| && forall i :: 0 <= i < |f| ==> parts[i] == RowString(f[i])
  {
    seq(|f|, i requires 0 <= i < |f| => RowString(f[i]))
  }

  /** Parts joined by " * ". */
  function Join(parts: seq<string>): (s: string)
  {
    if |parts| == 0 then ""
    else if |parts| == 1 then parts[0]
    else Join(parts[..|parts| - 1]) + " * " + parts[|parts| - 1]
  }

  /** What the loop of factors_to_string accumulates: each part followed by " * ". */
  function Accumulated(parts: seq<string>): (s: string)
  {
    if parts == [] then "" else Accumulated(parts[..|parts| - 1]) + parts[|parts| - 1] + " * "
  }

  /** The accumulated string is the joined parts plus one trailing separator. */
  lemma {:induction false} AccumulatedIsJoined(parts: seq<string>)
    requires parts != []
    ensures Accumulated(parts) == Join(parts) + " * "
  {
    if |parts| > 1 {
      AccumulatedIsJoined(parts[..|parts| - 1]);
    } else {
      assert parts[..0] == [];
    }
  }

  /** Joining two non-empty lists puts one separator between them. */
  lemma {:induction false} JoinAppend(xs: seq<string>, ys: seq<string>)
    requires xs != [] && ys != []
    ensures Join(xs + ys) == Join(xs) + " * " + Join(ys)
    decreases |ys|
  {
    var last := ys[|ys| - 1];
    assert (xs + ys)[|xs + ys| - 1] == last;
    if |ys| == 1 {
      assert (xs + ys)[..|xs + ys| - 1] == xs;
    } else {
      var init := ys[..|ys| - 1];
      JoinAppend(xs, init);
      assert (xs + ys)[..|xs + ys| - 1] == xs + init;
    }
  }

  /** factors_to_string: append "p^m * " per row, then drop the last three
      characters (Python's s[0:-3], which is "" for the empty string). */
  method FactorsToString(f: seq<PrimePower>) returns (s: string)
    ensures s == Join(Rendered(f))
  {
    var acc := "";
    ghost var parts := Rendered(f);
    for i := 0 to |f|
      invariant acc == Accumulated(parts[..i])
    {
      assert parts[..i + 1][..i] == parts[..i];
      acc := acc + RowString(f[i]) + " * ";
    }
    assert parts[..|f|] == parts;
    if f != [] {
      AccumulatedIsJoined(parts);
    }
    var stop := if |acc| >= 3 then |acc| - 3 else 0;
    s := acc[..stop];
  }
}
