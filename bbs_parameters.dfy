/** Generation of the Blum Blum Shub parameters: two strong-strong primes
    p = 4c + 3 whose generators c are chosen, from the seed, among the
    integers that are invertible together with 2c + 1 and 4c + 3 modulo
    every small prime, then the start state of the generator. */
module BbsParameters {
  import opened Wrappers
  import opened Arith
  import opened Subroutines

  // ---------------------------------------------------------------------
  // Admissible residues modulo one small prime

  /** is_strong_strong_basis: alpha, 2 alpha + 1 and 2 (2 alpha + 1) + 1
      are all nonzero modulo p. */
  predicate IsStrongStrongBasis(alpha: int, p: int)
    requires p > 0
  {
    if alpha % p == 0 then false
    else if (2 * alpha + 1) % p == 0 then false
    else if (2 * (2 * alpha + 1) + 1) % p == 0 then false
    else true
  }

  /** The residues c in [from, p) that are strong-strong bases, in order. */
  function AdmissibleFrom(p: int, from: int): (r: seq<int>)
    requires p > 0 && 0 <= from <= p
    ensures forall x :: x in r <==> from <= x < p && IsStrongStrongBasis(x, p)
    ensures forall i :: 0 <= i < |r| ==> from <= r[i] < p
    ensures forall i, j :: 0 <= i < j < |r| ==> r[i] < r[j]
    decreases p - from
  {
    if from == p then []
    else if IsStrongStrongBasis(from, p) then [from] + AdmissibleFrom(p, from + 1)
    else AdmissibleFrom(p, from + 1)
  }

  /** [c for c in range(p) if is_strong_strong_basis(c, p)]. */
  function AdmissibleResidues(p: int): (r: seq<int>)
    requires p > 0
  {
    AdmissibleFrom(p, 0)
  }

  /** The basis test only looks at the residue modulo p. */
  lemma BasisDependsOnResidue(a: int, b: int, p: int)
    requires p > 0 && a % p == b % p
    ensures IsStrongStrongBasis(a, p) == IsStrongStrongBasis(b, p)
  {
    ModMul(2, a, p);
    ModMul(2, b, p);
    ModAdd(2 * a, 1, p);
    ModAdd(2 * b, 1, p);
    ModMul(2, 2 * a + 1, p);
    ModMul(2, 2 * b + 1, p);
    ModAdd(2 * (2 * a + 1), 1, p);
    ModAdd(2 * (2 * b + 1), 1, p);
  }

  /** Every modulus p >= 2 has an admissible residue: 1 unless p is 3 or 7,
      where 2 is one. */
  lemma AdmissibleNonEmpty(p: int)
    requires p >= 2
    ensures |AdmissibleResidues(p)| >= 1
  {
    var c := if p == 3 || p == 7 then 2 else 1;
    assert IsStrongStrongBasis(c, p);
    assert c in AdmissibleResidues(p);
  }

  /** The table hard-codes [1] for the prime 2; it is the comprehension's value. */
  lemma AdmissibleResiduesOfTwo()
    ensures AdmissibleResidues(2) == [1]
  {
    assert !IsStrongStrongBasis(0, 2);
    assert IsStrongStrongBasis(1, 2);
    assert AdmissibleFrom(2, 2) == [];
    assert AdmissibleFrom(2, 1) == [1];
  }

  /** Modulo 3 only 2 is admissible, so primes 2 and 3 alone give every
      index a single choice. */
  lemma AdmissibleResiduesOfThree()
    ensures AdmissibleResidues(3) == [2]
  {
    assert !IsStrongStrongBasis(0, 3);
    assert !IsStrongStrongBasis(1, 3);
    assert IsStrongStrongBasis(2, 3);
    assert AdmissibleFrom(3, 3) == [];
    assert AdmissibleFrom(3, 2) == [2];
    assert AdmissibleFrom(3, 1) == [2];
  }

  // ---------------------------------------------------------------------
  // Products and mixed-radix numbers

  function Product(xs: seq<int>): int
  {
    if xs == [] then 1 else xs[0] * Product(xs[1..])
  }

  predicate AllPositive(xs: seq<int>)
  {
    forall i :: 0 <= i < |xs| ==> xs[i] >= 1
  }

  lemma {:induction false} ProductPositive(xs: seq<int>)
    requires AllPositive(xs)
    ensures Product(xs) >= 1
  {
    if xs != [] {
      ProductPositive(xs[1..]);
      MulMonotone(1, xs[0], Product(xs[1..]));
    }
  }

  lemma {:induction false} ProductAppend(xs: seq<int>, x: int)
    ensures Product(xs + [x]) == Product(xs) * x
  {
    if xs != [] {
      assert (xs + [x])[1..] == xs[1..] + [x];
      ProductAppend(xs[1..], x);
      MulAssoc(xs[0], Product(xs[1..]), x);
    }
  }

  /** Any element of a list divides the product of the list. */
  lemma {:induction false} ProductDivisible(xs: seq<int>, k: int)
    requires 0 <= k < |xs| && xs[k] > 0
    ensures Product(xs) % xs[k] == 0
  {
    if k == 0 {
      DividesMultiple(Product(xs), xs[0], Product(xs[1..]));
    } else {
      ProductDivisible(xs[1..], k - 1);
      var t := Product(xs[1..]) / xs[k];
      ExactQuotient(Product(xs[1..]), xs[k]);
      MulAssoc(xs[0], xs[k], t);
      assert Product(xs) == xs[k] * (xs[0] * t);
      DividesMultiple(Product(xs), xs[k], xs[0] * t);
    }
  }

  /** The list without its k-th element. */
  function Without(xs: seq<int>, k: int): (r: seq<int>)
    requires 0 <= k < |xs|
    ensures |r| == |xs| - 1
    ensures forall j :: 0 <= j < k ==> r[j] == xs[j]
    ensures forall j :: k < j < |xs| ==> r[j - 1] == xs[j]
  {
    xs[..k] + xs[k + 1..]
  }

  lemma {:induction false} ProductWithout(xs: seq<int>, k: int)
    requires 0 <= k < |xs|
    ensures Product(xs) == xs[k] * Product(Without(xs, k))
  {
    if k > 0 {
      ProductWithout(xs[1..], k - 1);
      assert Without(xs, k) == [xs[0]] + Without(xs[1..], k - 1);
      assert Without(xs, k)[1..] == Without(xs[1..], k - 1);
      MulAssoc(xs[0], xs[k], Product(Without(xs[1..], k - 1)));
      MulAssoc(xs[k], xs[0], Product(Without(xs[1..], k - 1)));
    } else {
      assert Without(xs, 0) == xs[1..];
    }
  }

  /** Digits ix[i] in [0, mx[i]). */
  predicate InRange(ix: seq<int>, mx: seq<int>)
  {
    |ix| == |mx| && forall i :: 0 <= i < |ix| ==> 0 <= ix[i] < mx[i]
  }

  /** The mixed-radix value: sum of ix[i] times the product of the radices
      before i. */
  function MixedValue(ix: seq<int>, mx: seq<int>): int
    requires |ix| == |mx|
  {
    if ix == [] then 0 else ix[0] + mx[0] * MixedValue(ix[1..], mx[1..])
  }

  lemma {:induction false} MixedValueBound(ix: seq<int>, mx: seq<int>)
    requires InRange(ix, mx)
    ensures 0 <= MixedValue(ix, mx) < Product(mx)
  {
    if ix != [] {
      MixedValueBound(ix[1..], mx[1..]);
      var v, P := MixedValue(ix[1..], mx[1..]), Product(mx[1..]);
      MulMonotone(v, P - 1, mx[0]);
      MulMonotone(0, v, mx[0]);
    }
  }

  /** Only the all-zero vector has value 0. */
  lemma {:induction false} MixedValueZero(ix: seq<int>, mx: seq<int>)
    requires InRange(ix, mx) && MixedValue(ix, mx) == 0
    ensures forall i :: 0 <= i < |ix| ==> ix[i] == 0
  {
    if ix != [] {
      MixedValueBound(ix[1..], mx[1..]);
      MulMonotone(0, MixedValue(ix[1..], mx[1..]), mx[0]);
      if MixedValue(ix[1..], mx[1..]) > 0 {
        MulMonotone(1, MixedValue(ix[1..], mx[1..]), mx[0]);
      }
      MixedValueZero(ix[1..], mx[1..]);
      assert forall i :: 1 <= i < |ix| ==> ix[i] == ix[1..][i - 1];
    }
  }

  /** Changing digit i to d moves the value by (d - ix[i]) times the
      product of the radices before i. */
  lemma {:induction false} MixedValueUpdate(ix: seq<int>, mx: seq<int>, i: int, d: int)
    requires |ix| == |mx| && 0 <= i < |ix|
    ensures MixedValue(ix[i := d], mx) == MixedValue(ix, mx) + (d - ix[i]) * Product(mx[..i])
  {
    if i == 0 {
      assert ix[0 := d][1..] == ix[1..];
      assert mx[..0] == [];
    } else {
      assert ix[i := d][1..] == ix[1..][i - 1 := d];
      assert mx[..i][1..] == mx[1..][..i - 1];
      var v1, P1, delta := MixedValue(ix[1..], mx[1..]), Product(mx[1..][..i - 1]), d - ix[i];
      MixedValueUpdate(ix[1..], mx[1..], i - 1, d);
      assert MixedValue(ix[1..][i - 1 := d], mx[1..]) == v1 + delta * P1;
      assert Product(mx[..i]) == mx[0] * P1;
      Distribute(ix[0], mx[0], v1, P1, delta);
      assert delta * P1 == P1 * delta;
      assert delta * (mx[0] * P1) == (mx[0] * P1) * delta;
    }
  }

  lemma MixedCons(d: int, m: int, ix: seq<int>, mx: seq<int>, rest: int)
    requires |ix| == |mx|
    ensures MixedValue([d] + ix, [m] + mx) + Product([m] + mx) * rest
         == d + m * (MixedValue(ix, mx) + Product(mx) * rest)
  {
    assert ([d] + ix)[1..] == ix;
    assert ([m] + mx)[1..] == mx;
    var v, P := MixedValue(ix, mx), Product(mx);
    assert MixedValue([d] + ix, [m] + mx) == d + m * v;
    assert Product([m] + mx) == m * P;
    Distribute(d, m, v, P, rest);
  }

  lemma Distribute(d: int, m: int, v: int, P: int, rest: int)
    ensures d + m * v + (m * P) * rest == d + m * (v + P * rest)
  {
    MulAssoc(m, P, rest);
  }

  /** list_of_indexes_from_seed, digit by digit: the remainder by the radix
      is the digit and the quotient carries on. */
  function Decode(seed: int, mx: seq<int>): (r: (seq<int>, int))
    requires AllPositive(mx)
    ensures |r.0| == |mx|
    decreases |mx|
  {
    if mx == [] then ([], seed)
    else
      var tail := Decode(seed / mx[0], mx[1..]);
      ([seed % mx[0]] + tail.0, tail.1)
  }

  lemma DivMod(x: int, n: int)
    requires n > 0
    ensures x == n * (x / n) + x % n
  {
  }

  /** The digits are in range and, with the rest, encode the seed. */
  lemma {:induction false} DecodeSpec(seed: int, mx: seq<int>)
    requires AllPositive(mx)
    ensures InRange(Decode(seed, mx).0, mx)
    ensures seed == MixedValue(Decode(seed, mx).0, mx) + Product(mx) * Decode(seed, mx).1
    decreases |mx|
  {
    if mx != [] {
      var m := mx[0];
      var q, d := seed / m, seed % m;
      var tail := Decode(q, mx[1..]);
      DecodeSpec(q, mx[1..]);
      assert Decode(seed, mx) == ([d] + tail.0, tail.1);
      MixedCons(d, m, tail.0, mx[1..], tail.1);
      assert [m] + mx[1..] == mx;
      DivMod(seed, m);
      var ix := Decode(seed, mx).0;
      forall i | 0 <= i < |ix|
        ensures 0 <= ix[i] < mx[i]
      {
        if i > 0 {
          assert ix[i] == tail.0[i - 1];
        }
      }
    }
  }

  /** Decoding inverts the mixed-radix encoding of in-range digits and a rest. */
  lemma {:induction false} DecodeEncode(ix: seq<int>, mx: seq<int>, rest: int)
    requires AllPositive(mx) && InRange(ix, mx)
    ensures Decode(MixedValue(ix, mx) + Product(mx) * rest, mx) == (ix, rest)
  {
    if ix != [] {
      var v := MixedValue(ix, mx) + Product(mx) * rest;
      var w := MixedValue(ix[1..], mx[1..]) + Product(mx[1..]) * rest;
      MulAssoc(mx[0], Product(mx[1..]), rest);
      assert v == mx[0] * w + ix[0];
      DivModUnique(v, mx[0], w, ix[0]);
      DecodeEncode(ix[1..], mx[1..], rest);
      assert [ix[0]] + ix[1..] == ix;
    }
  }

  /** list_of_indexes_from_seed. */
  method IndexesFromSeed(seed: int, mx: seq<int>) returns (indexes: seq<int>, rest: int)
    requires AllPositive(mx)
    ensures (indexes, rest) == Decode(seed, mx)
  {
    indexes := [];
    rest := seed;
    assert mx[0..] == mx;
    for i := 0 to |mx|
      invariant Decode(seed, mx).0 == indexes + Decode(rest, mx[i..]).0
      invariant Decode(seed, mx).1 == Decode(rest, mx[i..]).1
    {
      var r := rest % mx[i];
      assert mx[i..][1..] == mx[i + 1..];
      DivModUnique(rest - r, mx[i], rest / mx[i], 0);
      ghost var tail := Decode((rest - r) / mx[i], mx[i + 1..]);
      assert Decode(rest, mx[i..]) == ([r] + tail.0, tail.1);
      assert (indexes + [r]) + tail.0 == indexes + ([r] + tail.0);
      rest := (rest - r) / mx[i];
      indexes := indexes + [r];
    }
    assert mx[|mx|..] == [];
    assert Decode(rest, mx[|mx|..]) == ([], rest);
    assert indexes + [] == indexes;
  }

  /** The value next_indexes moves to: one more, except that after the last
      vector the carry runs round and lands on 1, skipping all zeros. */
  function NextValue(v: int, P: int): int
  {
    if v + 1 < P then v + 1 else 1
  }

  predicate SomeRadixAboveOne(mx: seq<int>)
  {
    exists k :: 0 <= k < |mx| && mx[k] > 1
  }

  /** next_indexes: an odometer over the digits, the carry going to the
      next digit and from the last one back to the first. It needs a radix
      above 1: with every radix 1 every digit wraps and the loop never ends. */
  method NextIndexes(a: array<int>, mx: seq<int>)
    requires a.Length == |mx| >= 1 && AllPositive(mx) && SomeRadixAboveOne(mx)
    requires InRange(a[..], mx)
    modifies a
    ensures InRange(a[..], mx)
    ensures MixedValue(a[..], mx) == NextValue(old(MixedValue(a[..], mx)), Product(mx))
    ensures a[..] == NextVector(old(a[..]), mx)
  {
    ghost var v := MixedValue(a[..], mx);
    ghost var P := Product(mx);
    ghost var pass := 0;
    MixedValueBound(a[..], mx);
    var i := 0;
    assert mx[..0] == [];
    while true
      invariant 0 <= i < a.Length && InRange(a[..], mx) && 0 <= pass <= 1
      invariant MixedValue(a[..], mx) + Product(mx[..i]) == (if pass == 0 then v + 1 else 1)
      invariant pass == 1 ==> v + 1 == P
      invariant pass == 1 ==> forall k :: 0 <= k < a.Length ==> a[k] == 0
      invariant pass == 1 ==> forall k :: 0 <= k < i ==> mx[k] == 1
      decreases 1 - pass, a.Length - i
    {
      ghost var before := a[..];
      DigitStep(before, mx, i);
      a[i] := (a[i] + 1) % mx[i];
      assert a[..] == before[i := a[i]];
      if a[i] == 0 {
        if i + 1 == a.Length {
          assert mx[..i + 1] == mx;
          assert pass == 0;
          LastDigitWraps(a[..], mx, v);
          pass := 1;
          assert mx[..0] == [];
          DivModUnique(i + 1, a.Length, 1, 0);
        } else {
          DivModUnique(i + 1, a.Length, 0, i + 1);
        }
        i := (i + 1) % a.Length;
      } else {
        MixedValueBound(a[..], mx);
        break;
      }
    }
    IsNextVector(old(a[..]), a[..], mx);
  }

  /** When the last digit wraps, the value has gone round: it was the
      largest one and the vector is now all zeros. */
  lemma LastDigitWraps(ix: seq<int>, mx: seq<int>, v: int)
    requires InRange(ix, mx) && AllPositive(mx) && |ix| >= 1
    requires 0 <= v < Product(mx) && MixedValue(ix, mx) + Product(mx) == v + 1
    ensures v + 1 == Product(mx) && forall k :: 0 <= k < |ix| ==> ix[k] == 0
  {
    MixedValueBound(ix, mx);
    MixedValueZero(ix, mx);
  }

  /** A vector in range whose value is the next value is the next vector. */
  lemma IsNextVector(ix: seq<int>, ix': seq<int>, mx: seq<int>)
    requires AllPositive(mx) && SomeRadixAboveOne(mx) && InRange(ix, mx) && InRange(ix', mx)
    requires MixedValue(ix', mx) == NextValue(MixedValue(ix, mx), Product(mx))
    ensures ix' == NextVector(ix, mx)
  {
    DecodeEncode(ix', mx, 0);
    assert MixedValue(ix', mx) + Product(mx) * 0 == MixedValue(ix', mx);
  }

  /** One digit of the odometer: either it moves up without a carry, or it
      wraps from its largest value to 0 and the carry moves to the next
      radix's weight. */
  lemma DigitStep(ix: seq<int>, mx: seq<int>, i: int)
    requires InRange(ix, mx) && AllPositive(mx) && 0 <= i < |ix|
    ensures InRange(ix[i := (ix[i] + 1) % mx[i]], mx)
    ensures (ix[i] + 1) % mx[i] != 0 ==>
      MixedValue(ix[i := (ix[i] + 1) % mx[i]], mx) == MixedValue(ix, mx) + Product(mx[..i])
    ensures (ix[i] + 1) % mx[i] == 0 ==>
      MixedValue(ix[i := 0], mx) + Product(mx[..i + 1]) == MixedValue(ix, mx) + Product(mx[..i])
    ensures (ix[i] + 1) % mx[i] == 0 && ix[i] == 0 ==> mx[i] == 1
  {
    var m, Pi := mx[i], Product(mx[..i]);
    if ix[i] + 1 < m {
      DivModUnique(ix[i] + 1, m, 0, ix[i] + 1);
      MixedValueUpdate(ix, mx, i, ix[i] + 1);
      assert (ix[i] + 1 - ix[i]) * Pi == Pi;
    } else {
      DivModUnique(ix[i] + 1, m, 1, 0);
      MixedValueUpdate(ix, mx, i, 0);
      ProductAppend(mx[..i], m);
      assert mx[..i + 1] == mx[..i] + [m];
      WrapWeight(ix[i], m, Pi);
    }
  }

  lemma WrapWeight(x: int, m: int, Pi: int)
    requires x == m - 1
    ensures (0 - x) * Pi + Pi * m == Pi
  {
  }

  lemma {:induction false} RadixAboveOneProduct(mx: seq<int>)
    requires AllPositive(mx) && SomeRadixAboveOne(mx)
    ensures Product(mx) >= 2
  {
    var k :| 0 <= k < |mx| && mx[k] > 1;
    ProductDivisible(mx, k);
    ProductPositive(mx);
    if Product(mx) < mx[k] {
      DivModUnique(Product(mx), mx[k], 0, Product(mx));
    }
  }

  /** The index vector next_indexes moves to, as a value. */
  function NextVector(ix: seq<int>, mx: seq<int>): (r: seq<int>)
    requires AllPositive(mx) && SomeRadixAboveOne(mx) && InRange(ix, mx)
    ensures InRange(r, mx)
    ensures MixedValue(r, mx) == NextValue(MixedValue(ix, mx), Product(mx))
  {
    var v := NextValue(MixedValue(ix, mx), Product(mx));
    MixedValueBound(ix, mx);
    RadixAboveOneProduct(mx);
    DecodeSpec(v, mx);
    var d := Decode(v, mx);
    MixedValueBound(d.0, mx);
    DivModUnique(v, Product(mx), d.1, MixedValue(d.0, mx));
    DivModUnique(v, Product(mx), 0, v);
    d.0
  }

  // ---------------------------------------------------------------------
  // Precomputation

  /** The tables the precomputation builds: the first primes, their
      product PI, the admissible residues modulo each prime, their numbers
      and the product C of those numbers. */
  datatype Tables = Tables(primes: seq<int>, PI: int, ssi: seq<seq<int>>, counts: seq<int>, C: int)

  predicate WellFormed(t: Tables)
  {
    && |t.primes| == |t.ssi| == |t.counts| >= 1
    && (forall k :: 0 <= k < |t.primes| ==> t.primes[k] >= 2)
    && (forall k :: 0 <= k < |t.primes| ==> t.ssi[k] == AdmissibleResidues(t.primes[k]))
    && (forall k :: 0 <= k < |t.primes| ==> t.counts[k] == |t.ssi[k]|)
    && t.PI == Product(t.primes)
    && t.C == Product(t.counts)
  }

  lemma CountsPositive(t: Tables)
    requires WellFormed(t)
    ensures AllPositive(t.counts) && AllPositive(t.primes)
    ensures t.PI >= 1
  {
    forall k | 0 <= k < |t.primes|
      ensures t.counts[k] >= 1
    {
      AdmissibleNonEmpty(t.primes[k]);
    }
    ProductPositive(t.primes);
  }

  /** `2**(b - 2) < PI`, the loop's exit test; below b = 2 the power is a
      fraction and the test holds at once. */
  predicate Enough(b: nat, PI: int)
  {
    b < 2 || Pow(2, b - 2) < PI
  }

  /** The tables main starts from: the prime 2 with its hard-coded residue
      list [1]. */
  function InitialTables(): (t: Tables)
    ensures WellFormed(t) && t.PI == 2
  {
    AdmissibleResiduesOfTwo();
    assert Product([2]) == 2 && Product([1]) == 1;
    Tables([2], 2, [[1]], [1], 1)
  }

  /** The tables with the prime p and its admissible residues appended. */
  function Extend(t: Tables, p: int): (t': Tables)
    requires WellFormed(t) && p >= 2
    ensures WellFormed(t') && t'.primes == t.primes + [p] && t'.PI == t.PI * p
  {
    AppendPrime(t, p);
    var r := AdmissibleResidues(p);
    Tables(t.primes + [p], t.PI * p, t.ssi + [r], t.counts + [|r|], t.C * |r|)
  }

  /** The precomputation from t on: append the next prime until PI exceeds
      2^(b - 2). */
  function PrecomputeFrom(b: nat, nextPrime: int -> int, t: Tables): (r: Tables)
    requires forall x :: nextPrime(x) > x
    requires WellFormed(t) && t.PI >= 2
    ensures WellFormed(r) && Enough(b, r.PI)
    ensures t.primes <= r.primes
    decreases if b >= 2 then Pow(2, b - 2) - t.PI else 0
  {
    if Enough(b, t.PI) then t
    else
      var p := nextPrime(t.primes[|t.primes| - 1]);
      MulMonotone(2, p, t.PI);
      PrecomputeFrom(b, nextPrime, Extend(t, p))
  }

  /** The tables of the precomputation loop for the bit size b. */
  function PrecomputeSpec(b: nat, nextPrime: int -> int): (t: Tables)
    requires forall x :: nextPrime(x) > x
    ensures WellFormed(t) && Enough(b, t.PI) && t.primes[0] == 2
  {
    PrecomputeFrom(b, nextPrime, InitialTables())
  }

  /** The precomputation loop of main: starting from the prime 2 with its
      hard-coded residue list [1], append the next prime and its admissible
      residues until PI exceeds 2^(b - 2). nextPrime stands for
      gmpy2.next_prime. */
  method Precompute(b: nat, nextPrime: int -> int) returns (t: Tables)
    requires forall x :: nextPrime(x) > x
    ensures t == PrecomputeSpec(b, nextPrime)
    ensures WellFormed(t)
    ensures t.primes[0] == 2
    ensures forall k :: 1 <= k < |t.primes| ==> t.primes[k] == nextPrime(t.primes[k - 1])
    ensures Enough(b, t.PI)
    ensures |t.primes| > 1 ==> !Enough(b, Product(t.primes[..|t.primes| - 1]))
  {
    var primes := [2];
    var PI := 2;
    var ssi := [[1]];
    var counts := [1];
    var C := 1;
    AdmissibleResiduesOfTwo();
    assert Product([2]) == 2 && Product([1]) == 1;
    assert Tables(primes, PI, ssi, counts, C) == InitialTables();
    ghost var limit := if b >= 2 then Pow(2, b - 2) else 0;
    while !Enough(b, PI)
      invariant PrecomputeInvariant(b, nextPrime, Tables(primes, PI, ssi, counts, C))
      decreases limit - PI
    {
      var p := nextPrime(primes[|primes| - 1]);
      var residues := AdmissibleResidues(p);
      ghost var next := Extend(Tables(primes, PI, ssi, counts, C), p);
      PrecomputeStep(b, nextPrime, Tables(primes, PI, ssi, counts, C));
      primes := primes + [p];
      PI := PI * p;
      ssi := ssi + [residues];
      counts := counts + [|residues|];
      C := C * |residues|;
      assert Tables(primes, PI, ssi, counts, C) == next;
    }
    t := Tables(primes, PI, ssi, counts, C);
  }

  /** What the precomputation loop keeps: well-formed tables starting at
      2, each prime the next after the one before, PI not yet above
      2^(b - 2) before the last prime, and the same final tables ahead. */
  predicate PrecomputeInvariant(b: nat, nextPrime: int -> int, t: Tables)
    requires forall x :: nextPrime(x) > x
  {
    && WellFormed(t)
    && t.primes[0] == 2 && t.PI >= 2
    && (forall k :: 1 <= k < |t.primes| ==> t.primes[k] == nextPrime(t.primes[k - 1]))
    && (|t.primes| > 1 ==> !Enough(b, Product(t.primes[..|t.primes| - 1])))
    && PrecomputeFrom(b, nextPrime, t) == PrecomputeSpec(b, nextPrime)
  }

  /** One turn of the loop keeps the invariant and at least doubles PI. */
  lemma PrecomputeStep(b: nat, nextPrime: int -> int, t: Tables)
    requires forall x :: nextPrime(x) > x
    requires PrecomputeInvariant(b, nextPrime, t) && !Enough(b, t.PI)
    ensures var next := Extend(t, nextPrime(t.primes[|t.primes| - 1]));
      PrecomputeInvariant(b, nextPrime, next) && next.PI >= 2 * t.PI
  {
    var p := nextPrime(t.primes[|t.primes| - 1]);
    AppendPrime(t, p);
    MulMonotone(2, p, t.PI);
  }

  /** Appending the next prime and its residues keeps the tables well formed. */
  lemma AppendPrime(t: Tables, p: int)
    requires WellFormed(t) && p >= 2
    ensures var r := AdmissibleResidues(p);
      WellFormed(Tables(t.primes + [p], t.PI * p, t.ssi + [r], t.counts + [|r|], t.C * |r|))
    ensures (t.primes + [p])[..|t.primes|] == t.primes
    ensures (t.primes + [p])[0] == t.primes[0]
  {
    var r := AdmissibleResidues(p);
    ProductAppend(t.primes, p);
    ProductAppend(t.counts, |r|);
    assert (t.primes + [p])[..|t.primes|] == t.primes;
  }

  /** The check that the seed carries enough entropy: it fails when
      seed_upper_bound < C^2 * 2^(2b). */
  predicate SeedLongEnough(seedUpperBound: int, C: int, b: nat)
  {
    !(seedUpperBound < C * C * Pow(2, 2 * b))
  }

  // ---------------------------------------------------------------------
  // Chinese remaindering

  /** gamma for one prime p: mu = PI / p times the inverse of mu modulo p,
      or None where gmpy2.invert raises. */
  function Gamma(PI: int, p: int): (r: Option<int>)
    requires p > 1
    ensures r.Some? ==> r.value % p == 1
    ensures r.None? <==> forall z :: 0 <= z < p ==> ((PI / p) * z) % p != 1
  {
    match ModInverse(PI / p, p)
    case None => None
    case Some(delta) => Some((PI / p) * delta)
  }

  function Gammas(primes: seq<int>, PI: int): (r: Option<seq<int>>)
    requires forall k :: 0 <= k < |primes| ==> primes[k] >= 2
    ensures r.Some? ==> |r.value| == |primes|
    ensures r.Some? ==> forall k :: 0 <= k < |primes| ==> Gamma(PI, primes[k]) == Some(r.value[k])
    ensures r.None? <==> exists k :: 0 <= k < |primes| && Gamma(PI, primes[k]).None?
  {
    if primes == [] then Some([])
    else match Gamma(PI, primes[0])
      case None => None
      case Some(g) =>
        var rest := Gammas(primes[1..], PI);
        assert forall k :: 1 <= k < |primes| ==> primes[1..][k - 1] == primes[k];
        if rest.None? then None else Some([g] + rest.value)
  }

  /** gamma_k is 1 modulo its own prime and 0 modulo every other prime of the table. */
  lemma GammaResidues(primes: seq<int>, gamma: seq<int>, k: int, j: int)
    requires forall i :: 0 <= i < |primes| ==> primes[i] >= 2
    requires Gammas(primes, Product(primes)) == Some(gamma)
    requires 0 <= k < |primes| && 0 <= j < |primes|
    ensures gamma[k] % primes[j] == (if j == k then 1 else 0)
  {
    var PI := Product(primes);
    var p := primes[k];
    assert Gamma(PI, p) == Some(gamma[k]);
    if j != k {
      var others := Without(primes, k);
      ProductWithout(primes, k);
      DividesMultiple(PI, p, Product(others));
      var mu := PI / p;
      assert mu == Product(others);
      var j' := if j < k then j else j - 1;
      assert others[j'] == primes[j];
      ProductDivisible(others, j');
      assert mu % primes[j] == 0;
      var delta := ModInverse(mu, p).value;
      assert gamma[k] == mu * delta;
      ModMulLeft(mu, delta, primes[j]);
      DivModUnique(0 * delta, primes[j], 0, 0);
    }
  }

  /** sum([x * y for x, y in zip(alpha, gamma)]). */
  function CrtSum(alpha: seq<int>, gamma: seq<int>): int
  {
    if alpha == [] || gamma == [] then 0
    else alpha[0] * gamma[0] + CrtSum(alpha[1..], gamma[1..])
  }

  lemma {:induction false} CrtSumVanishes(alpha: seq<int>, gamma: seq<int>, p: int)
    requires p > 0 && |alpha| == |gamma|
    requires forall j :: 0 <= j < |gamma| ==> gamma[j] % p == 0
    ensures CrtSum(alpha, gamma) % p == 0
  {
    if alpha != [] {
      var x, rest := alpha[0] * gamma[0], CrtSum(alpha[1..], gamma[1..]);
      assert CrtSum(alpha, gamma) == x + rest;
      assert forall j :: 0 <= j < |gamma| - 1 ==> gamma[1..][j] % p == 0;
      CrtSumVanishes(alpha[1..], gamma[1..], p);
      ModMulLeft(gamma[0], alpha[0], p);
      assert x == gamma[0] * alpha[0];
      DivModUnique(0, p, 0, 0);
      assert x % p == (0 * alpha[0]) % p == 0;
      ModAdd(x, rest, p);
    }
  }

  /** With gamma_k = 1 and the other gammas 0 modulo p, the sum is alpha_k modulo p. */
  lemma {:induction false} CrtSumResidue(alpha: seq<int>, gamma: seq<int>, p: int, k: int)
    requires p > 0 && |alpha| == |gamma| && 0 <= k < |alpha|
    requires gamma[k] % p == 1
    requires forall j :: 0 <= j < |gamma| && j != k ==> gamma[j] % p == 0
    ensures CrtSum(alpha, gamma) % p == alpha[k] % p
  {
    var x, rest := alpha[0] * gamma[0], CrtSum(alpha[1..], gamma[1..]);
    assert CrtSum(alpha, gamma) == x + rest;
    ModAdd(x, rest, p);
    ModMulLeft(gamma[0], alpha[0], p);
    assert x == gamma[0] * alpha[0];
    var xm, rm := x % p, rest % p;
    assert (xm + rm) % p == CrtSum(alpha, gamma) % p;
    if k == 0 {
      CrtSumVanishes(alpha[1..], gamma[1..], p);
      assert xm == (1 * alpha[0]) % p;
      DivModUnique(xm + rm, p, 0, alpha[0] % p);
    } else {
      assert forall j :: 0 <= j < |gamma| - 1 && j != k - 1 ==> gamma[1..][j] % p == 0;
      CrtSumResidue(alpha[1..], gamma[1..], p, k - 1);
      assert xm == (0 * alpha[0]) % p;
      DivModUnique(0, p, 0, 0);
      assert xm == 0;
      assert alpha[1..][k - 1] == alpha[k];
      DivModUnique(xm + rm, p, 0, alpha[k] % p);
    }
  }

  /** alpha = [x[i] for x, i in zip(strong_strong_integers, indexes)]. */
  function Alpha(ssi: seq<seq<int>>, ix: seq<int>): (alpha: seq<int>)
    requires |ix| == |ssi| && forall k :: 0 <= k < |ix| ==> 0 <= ix[k] < |ssi[k]|
    ensures |alpha| == |ix|
  {
    seq(|ix|, k requires 0 <= k < |ix| => ssi[k][ix[k]])
  }

  /** The candidate c for an index vector. */
  function Candidate(t: Tables, gamma: seq<int>, ix: seq<int>): (c: int)
    requires WellFormed(t) && InRange(ix, t.counts)
    ensures 0 <= c < t.PI
  {
    CountsPositive(t);
    CrtSum(Alpha(t.ssi, ix), gamma) % t.PI
  }

  /** c is congruent to its chosen residue modulo every table prime, so c,
      2c + 1 and 4c + 3 are nonzero modulo all of them. */
  lemma CandidateIsAdmissible(t: Tables, gamma: seq<int>, ix: seq<int>, k: int)
    requires WellFormed(t) && InRange(ix, t.counts) && 0 <= k < |t.primes|
    requires Gammas(t.primes, t.PI) == Some(gamma)
    ensures Candidate(t, gamma, ix) % t.primes[k] == t.ssi[k][ix[k]] % t.primes[k]
    ensures IsStrongStrongBasis(Candidate(t, gamma, ix), t.primes[k])
  {
    CountsPositive(t);
    var p := t.primes[k];
    var alpha := Alpha(t.ssi, ix);
    forall j | 0 <= j < |gamma|
      ensures gamma[j] % p == (if j == k then 1 else 0)
    {
      GammaResidues(t.primes, gamma, j, k);
    }
    CrtSumResidue(alpha, gamma, p, k);
    var S := CrtSum(alpha, gamma);
    ProductDivisible(t.primes, k);
    ExactQuotient(t.PI, p);
    var PI, m, q := t.PI, t.PI / p, S / t.PI;
    DivMod(S, PI);
    assert PI == p * m;
    MulAssoc(p, m, q);
    assert PI * q == p * (m * q);
    assert S == S % PI + p * (m * q);
    ModAddMultiple(S % PI, m * q, p);
    assert alpha[k] in AdmissibleResidues(p);
    BasisDependsOnResidue(Candidate(t, gamma, ix), alpha[k], p);
  }

  // ---------------------------------------------------------------------
  // The search for a strong-strong prime

  /** The acceptance test of a candidate c: at least b - 2 bits and the
      generator test, which the search receives as isGenerator and which
      generate_strong_strong_prime instantiates with
      is_strong_strong_prime_generator. */
  predicate Accepts(c: nat, b: nat, isGenerator: int -> bool)
  {
    BitLength(c) >= b - 2 && isGenerator(c)
  }

  /** The candidates tried from index vector ix: the first accepted one,
      or OutOfFuel when fuel runs out or when every radix is 1, where the
      odometer never moves and the search never ends. */
  function Search(t: Tables, gamma: seq<int>, b: nat, isGenerator: int -> bool, ix: seq<int>, fuel: nat): (r: Result<int, Failure>)
    requires WellFormed(t) && InRange(ix, t.counts)
    ensures r.Ok? ==> r.value >= 0 && Accepts(r.value, b, isGenerator)
    ensures r.Ok? ==> exists ix' :: InRange(ix', t.counts) && r.value == Candidate(t, gamma, ix')
    ensures r.Err? ==> r.error == OutOfFuel
    decreases fuel
  {
    CountsPositive(t);
    var c := Candidate(t, gamma, ix);
    if Accepts(c, b, isGenerator) then Ok(c)
    else if fuel == 0 || !SomeRadixAboveOne(t.counts) then Err(OutOfFuel)
    else Search(t, gamma, b, isGenerator, NextVector(ix, t.counts), fuel - 1)
  }

  /** One step of the search, as the loop takes it. */
  lemma SearchStep(t: Tables, gamma: seq<int>, b: nat, isGenerator: int -> bool, ix: seq<int>, fuel: nat)
    requires WellFormed(t) && InRange(ix, t.counts) && AllPositive(t.counts)
    ensures Accepts(Candidate(t, gamma, ix), b, isGenerator) ==> Search(t, gamma, b, isGenerator, ix, fuel) == Ok(Candidate(t, gamma, ix))
    ensures !Accepts(Candidate(t, gamma, ix), b, isGenerator) && (fuel == 0 || !SomeRadixAboveOne(t.counts)) ==>
      Search(t, gamma, b, isGenerator, ix, fuel) == Err(OutOfFuel)
    ensures !Accepts(Candidate(t, gamma, ix), b, isGenerator) && fuel > 0 && SomeRadixAboveOne(t.counts) ==>
      Search(t, gamma, b, isGenerator, ix, fuel) == Search(t, gamma, b, isGenerator, NextVector(ix, t.counts), fuel - 1)
  {
  }

  /** generate_strong_strong_prime: 4c + 3 for the first accepted candidate,
      and what remains of the seed after the indexes are taken from it. */
  function GenerateSpec(t: Tables, gamma: seq<int>, seed: int, b: nat, fuel: nat): Result<(int, int), Failure>
    requires WellFormed(t)
  {
    CountsPositive(t);
    DecodeSpec(seed, t.counts);
    var (ix, rest) := Decode(seed, t.counts);
    GenerateFromIndexes(t, gamma, ix, rest, b, fuel)
  }

  /** The search part of generate_strong_strong_prime, once the indexes
      and the rest of the seed are known. */
  function GenerateFromIndexes(t: Tables, gamma: seq<int>, ix: seq<int>, rest: int, b: nat, fuel: nat)
    : Result<(int, int), Failure>
    requires WellFormed(t) && InRange(ix, t.counts)
  {
    WithRest(Search(t, gamma, b, IsStrongStrongPrimeGenerator, ix, fuel), rest)
  }

  /** 4c + 3 for an accepted candidate c, paired with the rest of the seed. */
  function WithRest(found: Result<int, Failure>, rest: int): Result<(int, int), Failure>
  {
    match found
    case Ok(c) => Ok((4 * c + 3, rest))
    case Err(e) => Err(e)
  }

  lemma BitLengthFourTimesPlusThree(c: nat)
    ensures BitLength(4 * c + 3) == BitLength(c) + 2
  {
    assert (4 * c + 3) / 2 == 2 * c + 1;
    assert (2 * c + 1) / 2 == c;
  }

  /** An accepted candidate gives a strong-strong prime of at least b bits. */
  lemma AcceptedGivesPrime(c: nat, b: nat)
    requires Accepts(c, b, IsStrongStrongPrimeGenerator)
    ensures IsStrongStrongPrime(4 * c + 3) && BitLength(4 * c + 3) >= b
  {
    GeneratorGivesStrongStrongPrime(c);
    BitLengthFourTimesPlusThree(c);
  }

  /** What the search promises: a strong-strong prime p = 4c + 3 of at
      least b bits whose generator c is nonzero, together with 2c + 1 and
      4c + 3, modulo every table prime; the rest of the seed is the
      quotient left by the index decoding, whatever the number of
      candidates tried. */
  lemma GenerateResult(t: Tables, gamma: seq<int>, seed: int, b: nat, fuel: nat)
    requires WellFormed(t) && Gammas(t.primes, t.PI) == Some(gamma)
    requires GenerateSpec(t, gamma, seed, b, fuel).Ok?
    ensures GenerateSpec(t, gamma, seed, b, fuel).value.0 >= 3
    ensures GenerateSpec(t, gamma, seed, b, fuel).value.0 % 4 == 3
    ensures IsStrongStrongPrime(GenerateSpec(t, gamma, seed, b, fuel).value.0)
    ensures BitLength(GenerateSpec(t, gamma, seed, b, fuel).value.0) >= b
    ensures forall k :: 0 <= k < |t.primes| ==>
      IsStrongStrongBasis((GenerateSpec(t, gamma, seed, b, fuel).value.0 - 3) / 4, t.primes[k])
    ensures GenerateSpec(t, gamma, seed, b, fuel).value.1 == Decode(seed, t.counts).1
  {
    CountsPositive(t);
    DecodeSpec(seed, t.counts);
    var ix := Decode(seed, t.counts).0;
    var c := Search(t, gamma, b, IsStrongStrongPrimeGenerator, ix, fuel).value;
    var p := GenerateSpec(t, gamma, seed, b, fuel).value.0;
    assert p == 4 * c + 3;
    DivModUnique(p, 4, c, 3);
    AcceptedGivesPrime(c, b);
    assert (p - 3) / 4 == c;
    var ix' :| InRange(ix', t.counts) && c == Candidate(t, gamma, ix');
    forall k | 0 <= k < |t.primes|
      ensures IsStrongStrongBasis(c, t.primes[k])
    {
      CandidateIsAdmissible(t, gamma, ix', k);
    }
  }

  /** The loop body's recombination: alpha from the indexes, then the sum
      of alpha_k gamma_k reduced modulo PI. */
  method CandidateOf(a: array<int>, t: Tables, gamma: seq<int>) returns (c: int)
    requires WellFormed(t) && InRange(a[..], t.counts)
    ensures c == Candidate(t, gamma, a[..])
  {
    CountsPositive(t);
    var alpha := Alpha(t.ssi, a[..]);
    c := CrtSum(alpha, gamma) % t.PI;
  }

  /** The while loop of generate_strong_strong_prime: the index list is
      an array the odometer updates in place. */
  method SearchFrom(a: array<int>, t: Tables, gamma: seq<int>, b: nat, isGenerator: int -> bool, fuel: nat) returns (r: Result<int, Failure>)
    requires WellFormed(t) && InRange(a[..], t.counts)
    modifies a
    ensures r == Search(t, gamma, b, isGenerator, old(a[..]), fuel)
  {
    var f: nat := fuel;
    ghost var target := Search(t, gamma, b, isGenerator, a[..], fuel);
    while true
      invariant InRange(a[..], t.counts)
      invariant Search(t, gamma, b, isGenerator, a[..], f) == target
      decreases f
    {
      var done, result := SearchTurn(a, t, gamma, b, isGenerator, f);
      if done {
        return result;
      }
      f := f - 1;
    }
  }

  /** One turn of the loop: test the candidate of the current indexes, and
      when it is rejected move the odometer on. */
  method SearchTurn(a: array<int>, t: Tables, gamma: seq<int>, b: nat, isGenerator: int -> bool, f: nat)
    returns (done: bool, r: Result<int, Failure>)
    requires WellFormed(t) && InRange(a[..], t.counts)
    modifies a
    ensures InRange(a[..], t.counts)
    ensures done ==> r == Search(t, gamma, b, isGenerator, old(a[..]), f)
    ensures !done ==> f > 0 && Search(t, gamma, b, isGenerator, old(a[..]), f) == Search(t, gamma, b, isGenerator, a[..], f - 1)
  {
    CountsPositive(t);
    var c := CandidateOf(a, t, gamma);
    SearchStep(t, gamma, b, isGenerator, a[..], f);
    if BitLength(c) >= b - 2 && isGenerator(c) {
      return true, Ok(c);
    }
    if f == 0 || !SomeRadixAboveOne(t.counts) {
      return true, Err(OutOfFuel);
    }
    NextIndexes(a, t.counts);
    done, r := false, Err(OutOfFuel);
  }

  /** generate_strong_strong_prime. */
  method GenerateStrongStrongPrime(seed: int, b: nat, t: Tables, gamma: seq<int>, fuel: nat)
    returns (r: Result<(int, int), Failure>)
    requires WellFormed(t)
    ensures r == GenerateSpec(t, gamma, seed, b, fuel)
  {
    CountsPositive(t);
    DecodeSpec(seed, t.counts);
    var indexes, rest := IndexesFromSeed(seed, t.counts);
    r := SearchIndexes(indexes, rest, b, t, gamma, fuel);
  }

  /** The loop of generate_strong_strong_prime over the index array. */
  method SearchIndexes(indexes: seq<int>, rest: int, b: nat, t: Tables, gamma: seq<int>, fuel: nat)
    returns (r: Result<(int, int), Failure>)
    requires WellFormed(t) && InRange(indexes, t.counts)
    ensures r == GenerateFromIndexes(t, gamma, indexes, rest, b, fuel)
  {
    var a := new int[|indexes|](k requires 0 <= k < |indexes| => indexes[k]);
    assert a[..] == indexes;
    var found := SearchFrom(a, t, gamma, b, IsStrongStrongPrimeGenerator, fuel);
    r := WithRest(found, rest);
  }

  // ---------------------------------------------------------------------
  // The start of the generator

  /** The residues the start must avoid: 0, 1, p and q. */
  predicate Excluded(s: int, p: int, q: int)
  {
    s == 0 || s == 1 || s == p || s == q
  }

  /** The residue after k steps of the avoidance loop from seed mod n. */
  function StartResidue(seed: int, n: int, k: nat): (s: int)
    requires n > 0
    ensures 0 <= s < n
  {
    (seed % n + k) % n
  }

  /** The number of steps from seed mod n to the residue 2. */
  function StepsToTwo(seed: int, n: int): (k: nat)
    requires n >= 9
    ensures k < n && StartResidue(seed, n, k) == 2
  {
    var start := seed % n;
    DivModUnique(start, n, 0, start);
    ModAdd(start, 2 - start, n);
    DivModUnique(2, n, 0, 2);
    (2 - start) % n
  }

  /** The first step count from k on whose residue is not excluded; the
      residue 2 never is, so it is at most StepsToTwo. */
  function FirstAllowed(seed: int, p: int, q: int, k: nat): (j: nat)
    requires p >= 3 && q >= 3 && k <= StepsToTwo(seed, p * q)
    ensures k <= j <= StepsToTwo(seed, p * q)
    ensures !Excluded(StartResidue(seed, p * q, j), p, q)
    ensures forall i :: k <= i < j ==> Excluded(StartResidue(seed, p * q, i), p, q)
    decreases StepsToTwo(seed, p * q) - k
  {
    if !Excluded(StartResidue(seed, p * q, k), p, q) then k
    else FirstAllowed(seed, p, q, k + 1)
  }

  /** s0: the square modulo n = pq of the first residue from seed mod n on
      that is none of 0, 1, p and q. */
  function BbsStartOf(seed: int, p: int, q: int): (s0: int)
    requires p >= 3 && q >= 3
    ensures 0 <= s0 < p * q
  {
    MulMonotone(3, p, q);
    MulMonotone(3, q, 3);
    var s := StartResidue(seed, p * q, FirstAllowed(seed, p, q, 0));
    (s * s) % (p * q)
  }

  /** The BBS-start block of main: step seed mod n past 0, 1, p and q, then
      square. The residue 2 is never excluded, so the loop stops by the time
      it reaches 2. */
  method BbsStart(seed: int, p: int, q: int) returns (s0: int)
    requires p >= 3 && q >= 3
    ensures s0 == BbsStartOf(seed, p, q)
    ensures exists k: nat ::
      && !Excluded(StartResidue(seed, p * q, k), p, q)
      && (forall j: nat :: j < k ==> Excluded(StartResidue(seed, p * q, j), p, q))
      && s0 == (StartResidue(seed, p * q, k) * StartResidue(seed, p * q, k)) % (p * q)
    ensures 0 <= s0 < p * q
  {
    var n := p * q;
    MulMonotone(3, p, q);
    MulMonotone(3, q, 3);
    var s := seed % n;
    ghost var start := s;
    ghost var k: nat := 0;
    ghost var toTwo := StepsToTwo(seed, n);
    DivModUnique(1, n, 0, 1);
    DivModUnique(start, n, 0, start);
    while s == 0 || s == 1 || s == p || s == q
      invariant 0 <= k <= toTwo && s == StartResidue(seed, n, k)
      invariant forall j: nat :: j < k ==> Excluded(StartResidue(seed, n, j), p, q)
      invariant FirstAllowed(seed, p, q, k) == FirstAllowed(seed, p, q, 0)
      decreases toTwo - k
    {
      ModAdd(start + k, 1, n);
      s := (s + 1) % n;
      k := k + 1;
    }
    s0 := (s * s) % n;
  }

  // ---------------------------------------------------------------------
  // main

  datatype BbsOutput = BbsOutput(p: int, q: int, s0: int)

  /** What main computes from the tables t: InsufficientSeedEntropy when
      the seed bound is below C^2 * 2^(2b), NoInverse when a CRT inverse is
      missing, otherwise p from the seed, q from what the first search
      leaves of it, and s0 from what the second leaves. */
  function BbsParametersSpec(t: Tables, seed: int, seedUpperBound: int, b: nat, fuel: nat): Result<BbsOutput, Failure>
    requires WellFormed(t)
  {
    if !SeedLongEnough(seedUpperBound, t.C, b) then Err(InsufficientSeedEntropy)
    else match Gammas(t.primes, t.PI)
      case None => Err(NoInverse)
      case Some(gamma) =>
        match GenerateSpec(t, gamma, seed, b, fuel)
        case Err(e) => Err(e)
        case Ok(first) =>
          match GenerateSpec(t, gamma, first.1, b, fuel)
          case Err(e) => Err(e)
          case Ok(second) =>
            GenerateResult(t, gamma, seed, b, fuel);
            GenerateResult(t, gamma, first.1, b, fuel);
            Ok(BbsOutput(first.0, second.0, BbsStartOf(second.1, first.0, second.0)))
  }

  /** The search fails only by running out of fuel. */
  lemma GenerateSpecFails(t: Tables, gamma: seq<int>, seed: int, b: nat, fuel: nat)
    requires WellFormed(t)
    ensures GenerateSpec(t, gamma, seed, b, fuel).Err? ==> GenerateSpec(t, gamma, seed, b, fuel).error == OutOfFuel
  {
    CountsPositive(t);
    DecodeSpec(seed, t.counts);
  }

  /** main stops for lack of entropy exactly when seed_upper_bound is below
      C^2 * 2^(2b); every other failure is a missing inverse or a search
      out of fuel. */
  lemma BbsParametersEntropy(t: Tables, seed: int, seedUpperBound: int, b: nat, fuel: nat)
    requires WellFormed(t)
    ensures BbsParametersSpec(t, seed, seedUpperBound, b, fuel) == Err(InsufficientSeedEntropy)
      <==> seedUpperBound < t.C * t.C * Pow(2, 2 * b)
    ensures BbsParametersSpec(t, seed, seedUpperBound, b, fuel).Err? ==>
      BbsParametersSpec(t, seed, seedUpperBound, b, fuel).error in {InsufficientSeedEntropy, NoInverse, OutOfFuel}
  {
    var gammas := Gammas(t.primes, t.PI);
    if SeedLongEnough(seedUpperBound, t.C, b) && gammas.Some? {
      var gamma := gammas.value;
      GenerateSpecFails(t, gamma, seed, b, fuel);
      var first := GenerateSpec(t, gamma, seed, b, fuel);
      if first.Ok? {
        GenerateSpecFails(t, gamma, first.value.1, b, fuel);
      }
    }
  }

  /** What main writes: two strong-strong primes p, q = 3 (mod 4) of at
      least b bits, and a start s0 in [0, pq) that is the square of a
      residue other than 0, 1, p and q. */
  lemma BbsParametersSound(t: Tables, seed: int, seedUpperBound: int, b: nat, fuel: nat)
    requires WellFormed(t) && BbsParametersSpec(t, seed, seedUpperBound, b, fuel).Ok?
    ensures var out := BbsParametersSpec(t, seed, seedUpperBound, b, fuel).value;
      && IsStrongStrongPrime(out.p) && IsStrongStrongPrime(out.q)
      && out.p >= 3 && out.q >= 3 && out.p % 4 == 3 && out.q % 4 == 3
      && BitLength(out.p) >= b && BitLength(out.q) >= b
      && 0 <= out.s0 < out.p * out.q
      && exists x :: 0 <= x < out.p * out.q && !Excluded(x, out.p, out.q) && out.s0 == (x * x) % (out.p * out.q)
  {
    var gamma := Gammas(t.primes, t.PI).value;
    var first := GenerateSpec(t, gamma, seed, b, fuel).value;
    var second := GenerateSpec(t, gamma, first.1, b, fuel).value;
    GenerateResult(t, gamma, seed, b, fuel);
    GenerateResult(t, gamma, first.1, b, fuel);
    var p, q := first.0, second.0;
    var x := StartResidue(second.1, p * q, FirstAllowed(second.1, p, q, 0));
    assert BbsStartOf(second.1, p, q) == (x * x) % (p * q);
  }

  /** The body of main between reading the seed and writing p, q and s0. */
  method GenerateBbsParameters(seed: int, seedUpperBound: int, b: nat, nextPrime: int -> int, fuel: nat)
    returns (r: Result<BbsOutput, Failure>)
    requires forall x :: nextPrime(x) > x
    ensures r.Ok? ==> var out := r.value;
      && IsStrongStrongPrime(out.p) && IsStrongStrongPrime(out.q)
      && out.p >= 3 && out.q >= 3 && out.p % 4 == 3 && out.q % 4 == 3
      && BitLength(out.p) >= b && BitLength(out.q) >= b
      && 0 <= out.s0 < out.p * out.q
    ensures r.Err? ==> r.error in {InsufficientSeedEntropy, NoInverse, OutOfFuel}
    ensures r == BbsParametersSpec(PrecomputeSpec(b, nextPrime), seed, seedUpperBound, b, fuel)
  {
    var t := Precompute(b, nextPrime);
    r := BbsParametersFrom(t, seed, seedUpperBound, b, fuel);
    BbsParametersEntropy(t, seed, seedUpperBound, b, fuel);
    if r.Ok? {
      BbsParametersSound(t, seed, seedUpperBound, b, fuel);
    }
  }

  /** main after the precomputation: the entropy check, the CRT
      coefficients, the two searches and the start. */
  method BbsParametersFrom(t: Tables, seed: int, seedUpperBound: int, b: nat, fuel: nat)
    returns (r: Result<BbsOutput, Failure>)
    requires WellFormed(t)
    ensures r == BbsParametersSpec(t, seed, seedUpperBound, b, fuel)
  {
    if seedUpperBound < t.C * t.C * Pow(2, 2 * b) {
      return Err(InsufficientSeedEntropy);
    }
    var gammas := Gammas(t.primes, t.PI);
    if gammas.None? {
      return Err(NoInverse);
    }
    var gamma := gammas.value;
    var first := GenerateStrongStrongPrime(seed, b, t, gamma, fuel);
    if first.Err? {
      return Err(first.error);
    }
    GenerateResult(t, gamma, seed, b, fuel);
    var (p, seed1) := first.value;
    var second := GenerateStrongStrongPrime(seed1, b, t, gamma, fuel);
    if second.Err? {
      return Err(second.error);
    }
    GenerateResult(t, gamma, seed1, b, fuel);
    var (q, seed2) := second.value;
    var s0 := BbsStart(seed2, p, q);
    return Ok(BbsOutput(p, q, s0));
  }
}
