/** Generation of the prime p of the field F_p: candidates are built from
    successive draws of the BBS generator, a one in front and two ones at
    the end, so that every candidate has exactly the requested size and is
    congruent to 3 modulo 4; the first candidate that passes the
    Miller-Rabin test is kept, together with the generator's state after
    that draw. */
module PrimeField {
  import opened Wrappers
  import opened Arith
  import opened Subroutines
  import opened BbsEngine

  /** The bits of one candidate: a leading one, the drawn bits, then 1, 1. */
  function CandidateBits(drawn: seq<Bit>): (bits: seq<Bit>)
    ensures |bits| == |drawn| + 3
    ensures bits[0] == 1 && bits[|bits| - 2] == 1 && bits[|bits| - 1] == 1
    ensures bits[1..|bits| - 2] == drawn
  {
    [1] + drawn + [1, 1]
  }

  /** Every candidate has exactly |drawn| + 3 bits and is 3 modulo 4. */
  lemma CandidateShape(drawn: seq<Bit>)
    ensures FromBits(CandidateBits(drawn)) % 4 == 3
    ensures BitLength(FromBits(CandidateBits(drawn))) == |drawn| + 3
  {
    FromBitsLowBits(CandidateBits(drawn));
    LeadingOneBitLength(CandidateBits(drawn));
  }

  /** The fold `p = (p << 1) | bit` over the bits, most significant first. */
  method FoldBits(bits: seq<Bit>) returns (p: nat)
    ensures p == FromBits(bits)
  {
    p := 0;
    for i := 0 to |bits|
      invariant p == FromBits(bits[..i])
    {
      assert bits[..i + 1][..i] == bits[..i];
      p := 2 * p + bits[i];
    }
    assert bits[..|bits|] == bits;
  }

  /** The generator's state after j candidates of k bits each, from the
      start state s. */
  function StateAfter(s: int, n: int, k: nat, j: nat): int
    requires n > 0
  {
    MulMonotone(0, j, k);
    Squarings(s, j * k, n)
  }

  /** The bits drawn for candidate number j + 1 (j counting from 0), k bits
      per candidate, from the start state s. */
  function Draw(s: int, n: int, k: nat, j: nat): (bits: seq<Bit>)
    requires n > 0
    ensures |bits| == k
  {
    Bits(StateAfter(s, n, k, j), k, n)
  }

  /** The candidate folded from `[1] + drawn + [1, 1]` when the k drawn
      bits denote v: 2^(k + 2) + 4v + 3. */
  function CandidateOf(v: nat, k: nat): nat
  {
    4 * (Pow(2, k) + v) + 3
  }

  lemma CandidateBitsValue(drawn: seq<Bit>)
    ensures FromBits(CandidateBits(drawn)) == CandidateOf(FromBits(drawn), |drawn|)
  {
    var b1 := [1] + drawn;
    CandidateBitsSplit(drawn);
    FromBitsLeadingOne(drawn);
    FromBitsAppend(b1, 1);
    FromBitsAppend(b1 + [1], 1);
  }

  lemma CandidateBitsSplit(drawn: seq<Bit>)
    ensures CandidateBits(drawn) == (([1] + drawn) + [1]) + [1]
  {
    assert [1, 1] == [1] + [1];
  }

  /** Candidate number j + 1: k bits drawn after j candidates, framed by a
      leading one and two trailing ones. */
  function CandidateAt(s: int, n: int, k: nat, j: nat): (c: nat)
    requires n > 0
    ensures c % 4 == 3 && BitLength(c) == k + 3
  {
    CandidateAtIsFold(s, n, k, j);
    CandidateShape(Draw(s, n, k, j));
    CandidateOf(BitsValue(StateAfter(s, n, k, j), k, n), k)
  }

  /** The candidate is the fold of its bits. */
  lemma CandidateAtIsFold(s: int, n: int, k: nat, j: nat)
    requires n > 0
    ensures CandidateOf(BitsValue(StateAfter(s, n, k, j), k, n), k) == FromBits(CandidateBits(Draw(s, n, k, j)))
  {
    BitsValueIsFromBits(StateAfter(s, n, k, j), k, n);
    CandidateBitsValue(Draw(s, n, k, j));
  }

  /** The candidates drawn one after the other are the bits of one long
      draw: candidate j uses bits j * k .. (j + 1) * k of it, and leaves
      the state after j + 1 candidates. */
  lemma DrawsAreConsecutive(s: int, n: int, k: nat, j: nat)
    requires n > 0
    ensures Squarings(StateAfter(s, n, k, j), k, n) == StateAfter(s, n, k, j + 1)
    ensures Bits(s, j * k, n) + Draw(s, n, k, j) == Bits(s, (j + 1) * k, n)
  {
    assert j * k + k == (j + 1) * k;
    BitsCompose(s, j * k, k, n);
  }

  /** The search from candidate j on: the first candidate that passes the
      primality test isPrime, with the number of candidates drawn so far.
      The source loops until one passes; the fuel bounds the number of
      further candidates tried. */
  function SearchFrom(s: int, n: int, k: nat, j: nat, fuel: nat, isPrime: int -> bool): (r: Result<(int, nat), Failure>)
    requires n > 0
    ensures r.Err? ==> r.error == OutOfFuel
    ensures r.Ok? ==> j < r.value.1 <= j + fuel + 1 && r.value.0 == CandidateAt(s, n, k, r.value.1 - 1)
    decreases fuel
  {
    var c := CandidateAt(s, n, k, j);
    if isPrime(c) then Ok((c, j + 1))
    else if fuel == 0 then Err(OutOfFuel)
    else SearchFrom(s, n, k, j + 1, fuel - 1, isPrime)
  }

  /** One step of the search: a passing candidate ends it, a failing one
      passes on to the next candidate with one less unit of fuel. */
  lemma SearchFromStep(s: int, n: int, k: nat, j: nat, fuel: nat, isPrime: int -> bool, passes: bool)
    requires n > 0 && passes == isPrime(CandidateAt(s, n, k, j))
    ensures passes ==> SearchFrom(s, n, k, j, fuel, isPrime) == Ok((CandidateAt(s, n, k, j), j + 1))
    ensures !passes && fuel == 0 ==> SearchFrom(s, n, k, j, fuel, isPrime) == Err(OutOfFuel)
    ensures !passes && fuel > 0 ==> SearchFrom(s, n, k, j, fuel, isPrime) == SearchFrom(s, n, k, j + 1, fuel - 1, isPrime)
  {
  }

  /** No candidate from number from up to (excluding) number to passes. */
  predicate NoneBetween(s: int, n: int, k: nat, from: nat, to: nat, isPrime: int -> bool)
    requires n > 0
  {
    forall i :: from <= i < to ==> !isPrime(CandidateAt(s, n, k, i))
  }

  /** The search stops at the first candidate that passes, and only there. */
  lemma {:induction false} SearchFromFirst(s: int, n: int, k: nat, j: nat, fuel: nat, isPrime: int -> bool)
    requires n > 0 && SearchFrom(s, n, k, j, fuel, isPrime).Ok?
    ensures isPrime(SearchFrom(s, n, k, j, fuel, isPrime).value.0)
    ensures NoneBetween(s, n, k, j, SearchFrom(s, n, k, j, fuel, isPrime).value.1 - 1, isPrime)
    decreases fuel
  {
    if !isPrime(CandidateAt(s, n, k, j)) {
      SearchFromFirst(s, n, k, j + 1, fuel - 1, isPrime);
    }
  }

  /** With fuel for m further candidates, the search fails exactly when none
      of the candidates j .. j + m passes. */
  lemma {:induction false} SearchFromFails(s: int, n: int, k: nat, j: nat, fuel: nat, isPrime: int -> bool)
    requires n > 0
    ensures SearchFrom(s, n, k, j, fuel, isPrime).Err? <==> NoneBetween(s, n, k, j, j + fuel + 1, isPrime)
    decreases fuel
  {
    if fuel > 0 {
      var to := j + fuel + 1;
      SearchFromFails(s, n, k, j + 1, fuel - 1, isPrime);
      assert (j + 1) + (fuel - 1) + 1 == to;
      assert SearchFrom(s, n, k, j + 1, fuel - 1, isPrime).Err? <==> NoneBetween(s, n, k, j + 1, to, isPrime);
      SearchFromFailsStep(s, n, k, j, fuel, isPrime);
    } else {
      SearchFromFailsLast(s, n, k, j, isPrime);
    }
  }

  lemma SearchFromFailsLast(s: int, n: int, k: nat, j: nat, isPrime: int -> bool)
    requires n > 0
    ensures SearchFrom(s, n, k, j, 0, isPrime).Err? <==> NoneBetween(s, n, k, j, j + 1, isPrime)
  {
    var passes := isPrime(CandidateAt(s, n, k, j));
    SearchFromStep(s, n, k, j, 0, isPrime, passes);
    NoneBetweenSplit(s, n, k, j, j + 1, isPrime);
    assert NoneBetween(s, n, k, j + 1, j + 1, isPrime);
  }

  lemma SearchFromFailsStep(s: int, n: int, k: nat, j: nat, fuel: nat, isPrime: int -> bool)
    requires n > 0 && fuel > 0
    requires SearchFrom(s, n, k, j + 1, fuel - 1, isPrime).Err? <==> NoneBetween(s, n, k, j + 1, j + fuel + 1, isPrime)
    ensures SearchFrom(s, n, k, j, fuel, isPrime).Err? <==> NoneBetween(s, n, k, j, j + fuel + 1, isPrime)
  {
    var passes := isPrime(CandidateAt(s, n, k, j));
    SearchFromStep(s, n, k, j, fuel, isPrime, passes);
    NoneBetweenSplit(s, n, k, j, j + fuel + 1, isPrime);
  }

  lemma NoneBetweenSplit(s: int, n: int, k: nat, from: nat, to: nat, isPrime: int -> bool)
    requires n > 0 && from < to
    ensures NoneBetween(s, n, k, from, to, isPrime) <==>
      !isPrime(CandidateAt(s, n, k, from)) && NoneBetween(s, n, k, from + 1, to, isPrime)
  {
  }

  /** A strong strong prime p has (p - 1) / 2 and ((p - 1) / 2 - 1) / 2 at
      least 2, so it is at least 11. */
  lemma StrongStrongAtLeastEleven(p: int)
    requires IsStrongStrongPrime(p)
    ensures p >= 11
  {
    var p1 := (p - 1) / 2;
    CandidateAtLeastTwo(p);
    CandidateAtLeastTwo(p1);
    CandidateAtLeastTwo((p1 - 1) / 2);
  }

  /** What the script writes out (the prime and the BBS parameters, with
      the generator's state after the last draw) and the number of the good
      candidate, which it prints. */
  datatype PrimeFieldOutput = PrimeFieldOutput(p: int, bbsP: int, bbsQ: int, bbsS: int, candidateNbr: nat)

  /** The search on a generator started from s0 modulo p * q, with
      candidates of size bits. */
  function GenerateFrom(bbsP: int, bbsQ: int, s0: int, size: int, fuel: nat): (r: Result<PrimeFieldOutput, Failure>)
    requires bbsP >= 2 && bbsQ >= 2 && size >= 3
    ensures r.Err? ==> r.error == OutOfFuel
    ensures r.Ok? ==> r.value.bbsP == bbsP && r.value.bbsQ == bbsQ && 1 <= r.value.candidateNbr <= fuel + 1
  {
    var n := Modulus(bbsP, bbsQ);
    var k: nat := size - 3;
    var found := SearchFrom(s0, n, k, 0, fuel, IsPrimeCandidate);
    if found.Err? then Err(found.error)
    else
      var count: nat := found.value.1;
      Ok(PrimeFieldOutput(found.value.0, bbsP, bbsQ, StateAfter(s0, n, k, count), count))
  }

  /** The whole script on its inputs bbs_p, bbs_q, bbs_s and prime_size. */
  function PrimeFieldSpec(bbsP: int, bbsQ: int, bbsS: int, size: int, fuel: nat): (r: Result<PrimeFieldOutput, Failure>)
    ensures r.Err? ==> r.error in {InvalidPrimeInput, AssertionFailed, OutOfFuel}
  {
    if !IsStrongStrongPrime(bbsP) || !IsStrongStrongPrime(bbsQ) then Err(InvalidPrimeInput)
    else if size < 3 then Err(AssertionFailed)
    else
      StrongStrongAtLeastEleven(bbsP);
      StrongStrongAtLeastEleven(bbsQ);
      GenerateFrom(bbsP, bbsQ, bbsS % Modulus(bbsP, bbsQ), size, fuel)
  }

  /** A successful search gives the first passing candidate, which has
      exactly size bits and is 3 modulo 4, and the state after exactly
      size - 3 bits per candidate drawn. */
  lemma GenerateFromResult(bbsP: int, bbsQ: int, s0: int, size: int, fuel: nat)
    requires bbsP >= 2 && bbsQ >= 2 && size >= 3
    requires GenerateFrom(bbsP, bbsQ, s0, size, fuel).Ok?
    ensures IsPrimeCandidate(GenerateFrom(bbsP, bbsQ, s0, size, fuel).value.p)
    ensures GenerateFrom(bbsP, bbsQ, s0, size, fuel).value.p % 4 == 3
    ensures BitLength(GenerateFrom(bbsP, bbsQ, s0, size, fuel).value.p) == size
    ensures var out := GenerateFrom(bbsP, bbsQ, s0, size, fuel).value;
      var n := Modulus(bbsP, bbsQ);
      && out.p == CandidateAt(s0, n, size - 3, out.candidateNbr - 1)
      && NoneBetween(s0, n, size - 3, 0, out.candidateNbr - 1, IsPrimeCandidate)
      && out.bbsS == StateAfter(s0, n, size - 3, out.candidateNbr)
  {
    SearchFromFirst(s0, Modulus(bbsP, bbsQ), size - 3, 0, fuel, IsPrimeCandidate);
  }

  /** The script succeeds only on strong strong primes bbs_p, bbs_q (so both
      are at least 11) and a size of at least 3, and then gives what
      GenerateFromResult describes, from the state bbs_s mod bbs_p * bbs_q. */
  lemma PrimeFieldResult(bbsP: int, bbsQ: int, bbsS: int, size: int, fuel: nat)
    requires PrimeFieldSpec(bbsP, bbsQ, bbsS, size, fuel).Ok?
    ensures IsStrongStrongPrime(bbsP) && IsStrongStrongPrime(bbsQ) && size >= 3
    ensures bbsP >= 11 && bbsQ >= 11
    ensures PrimeFieldSpec(bbsP, bbsQ, bbsS, size, fuel)
      == GenerateFrom(bbsP, bbsQ, bbsS % Modulus(bbsP, bbsQ), size, fuel)
  {
    StrongStrongAtLeastEleven(bbsP);
    StrongStrongAtLeastEleven(bbsQ);
  }

  /** The input check rejects exactly the inputs where one of the BBS
      primes is not a strong strong prime. */
  lemma InputCheck(bbsP: int, bbsQ: int, bbsS: int, size: int, fuel: nat)
    ensures PrimeFieldSpec(bbsP, bbsQ, bbsS, size, fuel) == Err(InvalidPrimeInput)
      <==> !IsStrongStrongPrime(bbsP) || !IsStrongStrongPrime(bbsQ)
  {
  }

  /** One candidate: `[1] + bbs.genbits(k) + [1, 1]` folded into an
      integer, which the source asserts has k + 3 bits and is 3 modulo 4. */
  method DrawCandidate(bbs: BBS, k: nat) returns (p: nat)
    requires bbs.Valid()
    modifies bbs
    ensures bbs.Valid() && bbs.p == old(bbs.p) && bbs.q == old(bbs.q) && bbs.n == old(bbs.n)
    ensures bbs.s == Squarings(old(bbs.s), k, bbs.n)
    ensures p == FromBits(CandidateBits(Bits(old(bbs.s), k, bbs.n)))
  {
    var drawn := bbs.GenBits(k);
    var bits := [1] + drawn + [1, 1];
    assert |bits| == k + 3;
    p := FoldBits(bits);
    CandidateShape(drawn);
    assert p % 4 == 3;
    assert BitLength(p) == k + 3;
  }

  /** One turn of the drawing loop: draw candidate number j + 1 from the
      state after j candidates and test it; the outcome is one step of
      SearchFrom. */
  method TryCandidate(bbs: BBS, k: nat, f: nat, isPrime: int -> bool, ghost s0: int, ghost j: nat)
    returns (p: nat, passes: bool)
    requires bbs.Valid() && bbs.s == StateAfter(s0, bbs.n, k, j)
    modifies bbs
    ensures bbs.Valid() && bbs.p == old(bbs.p) && bbs.q == old(bbs.q) && bbs.n == old(bbs.n)
    ensures bbs.s == StateAfter(s0, bbs.n, k, j + 1)
    ensures passes ==> SearchFrom(s0, bbs.n, k, j, f, isPrime) == Ok((p, j + 1))
    ensures !passes && f == 0 ==> SearchFrom(s0, bbs.n, k, j, f, isPrime) == Err(OutOfFuel)
    ensures !passes && f > 0 ==> SearchFrom(s0, bbs.n, k, j, f, isPrime) == SearchFrom(s0, bbs.n, k, j + 1, f - 1, isPrime)
  {
    p := DrawCandidate(bbs, k);
    DrawsAreConsecutive(s0, bbs.n, k, j);
    CandidateAtIsFold(s0, bbs.n, k, j);
    passes := isPrime(p);
    SearchFromStep(s0, bbs.n, k, j, f, isPrime, passes);
  }

  /** The drawing loop: k fresh bits per candidate until a candidate passes
      the test isPrime; the generator is left after the last draw. */
  method DrawUntilPrime(bbs: BBS, k: nat, fuel: nat, isPrime: int -> bool) returns (r: Result<(int, nat), Failure>)
    requires bbs.Valid()
    modifies bbs
    ensures bbs.Valid() && bbs.p == old(bbs.p) && bbs.q == old(bbs.q) && bbs.n == old(bbs.n)
    ensures r == SearchFrom(old(bbs.s), bbs.n, k, 0, fuel, isPrime)
    ensures r.Ok? ==> bbs.s == StateAfter(old(bbs.s), bbs.n, k, r.value.1)
  {
    ghost var s0 := bbs.s;
    ghost var n := bbs.n;
    ghost var spec := SearchFrom(s0, n, k, 0, fuel, isPrime);
    var j: nat := 0;
    var f: nat := fuel;
    while true
      invariant bbs.Valid() && bbs.p == old(bbs.p) && bbs.q == old(bbs.q) && bbs.n == n
      invariant bbs.s == StateAfter(s0, n, k, j)
      invariant SearchFrom(s0, n, k, j, f, isPrime) == spec
      decreases f
    {
      var p, passes := TryCandidate(bbs, k, f, isPrime, s0, j);
      if passes {
        return Ok((p, j + 1));
      }
      if f == 0 {
        return Err(OutOfFuel);
      }
      j, f := j + 1, f - 1;
    }
  }

  /** The script: check the BBS primes, start the generator on bbs_s and
      draw candidates until one passes. */
  method GeneratePrimeField(bbsP: int, bbsQ: int, bbsS: int, size: int, fuel: nat)
    returns (r: Result<PrimeFieldOutput, Failure>)
    ensures r == PrimeFieldSpec(bbsP, bbsQ, bbsS, size, fuel)
  {
    if !IsStrongStrongPrime(bbsP) || !IsStrongStrongPrime(bbsQ) {
      return Err(InvalidPrimeInput);
    }
    if size < 3 {
      return Err(AssertionFailed);
    }
    StrongStrongAtLeastEleven(bbsP);
    StrongStrongAtLeastEleven(bbsQ);
    r := RunPrimeField(bbsP, bbsQ, bbsS, size, fuel);
  }

  /** The script once the checks pass: start the generator on bbs_s modulo
      n and draw. */
  method RunPrimeField(bbsP: int, bbsQ: int, bbsS: int, size: int, fuel: nat)
    returns (r: Result<PrimeFieldOutput, Failure>)
    requires bbsP >= 11 && bbsQ >= 11 && size >= 3
    ensures r == GenerateFrom(bbsP, bbsQ, bbsS % Modulus(bbsP, bbsQ), size, fuel)
  {
    var n := Modulus(bbsP, bbsQ);
    var s0 := bbsS % n;
    var bbs := new BBS(bbsP, bbsQ, s0, 0);
    MulMonotone(10, bbsP - 1, bbsQ - 1);
    StartWithoutShift(bbsP, bbsQ, s0);
    DivModUnique(s0, n, 0, s0);
    var found := DrawUntilPrime(bbs, size - 3, fuel, IsPrimeCandidate);
    if found.Err? {
      return Err(found.error);
    }
    r := Ok(PrimeFieldOutput(found.value.0, bbsP, bbsQ, bbs.s, found.value.1));
  }
}
