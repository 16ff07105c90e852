/** The Blum Blum Shub generator: a state s modulo n = p * q that is
    squared once per emitted bit, the bit being the parity of the new
    state, and that can jump k squarings ahead by raising s to the power
    2^k reduced modulo (p - 1)(q - 1). */
module BbsEngine {
  import opened Arith

  /** (p - 1)(q - 1), the modulus the exponents are reduced by. */
  function Totient(p: int, q: int): (phi: int)
    requires p >= 2 && q >= 2
    ensures phi >= 1
  {
    MulMonotone(1, p - 1, q - 1);
    (p - 1) * (q - 1)
  }

  function Modulus(p: int, q: int): (n: int)
    requires p >= 2 && q >= 2
    ensures n >= 4
  {
    MulMonotone(2, p, q);
    MulMonotone(2, q, 2);
    p * q
  }

  /** The state the constructor leaves: s reduced modulo n, raised to
      2^shift reduced modulo (p - 1)(q - 1). */
  function StartState(p: int, q: int, s: int, shift: nat): (r: int)
    requires p >= 2 && q >= 2
    ensures 0 <= r < Modulus(p, q)
  {
    PowMod(s % Modulus(p, q), Pow(2, shift) % Totient(p, q), Modulus(p, q))
  }

  /** The state skipbits(k) leaves. */
  function SkipState(s: int, k: nat, p: int, q: int): (r: int)
    requires p >= 2 && q >= 2
    ensures 0 <= r < Modulus(p, q)
  {
    PowMod(s, Pow(2, k) % Totient(p, q), Modulus(p, q))
  }

  /** The k bits genbits(k) emits from state s: bit i is the parity of the
      state after i + 1 squarings. */
  function Bits(s: int, k: nat, n: int): (bits: seq<Bit>)
    requires n > 0
    ensures |bits| == k
    ensures forall i :: 0 <= i < k ==> bits[i] == Squarings(s, i + 1, n) % 2
  {
    if k == 0 then [] else Bits(s, k - 1, n) + [Squarings(s, k, n) % 2]
  }

  /** The integer the k bits of genbits(k) denote, most significant bit
      first, as the source's fold `(x << 1) | bit` reads them. */
  function BitsValue(s: int, k: nat, n: int): (v: nat)
    requires n > 0
  {
    if k == 0 then 0 else 2 * BitsValue(s, k - 1, n) + Squarings(s, k, n) % 2
  }

  lemma {:induction false} BitsValueIsFromBits(s: int, k: nat, n: int)
    requires n > 0
    ensures FromBits(Bits(s, k, n)) == BitsValue(s, k, n)
    ensures BitsValue(s, k, n) < Pow(2, k)
  {
    FromBitsBounds(Bits(s, k, n));
    if k > 0 {
      BitsValueIsFromBits(s, k - 1, n);
      assert Bits(s, k, n)[..k - 1] == Bits(s, k - 1, n);
    }
  }

  /** genbits(a) followed by genbits(b) emits the bits of genbits(a + b)
      and leaves the same state. */
  lemma {:induction false} BitsCompose(s: int, a: nat, b: nat, n: int)
    requires n > 0
    ensures Bits(s, a, n) + Bits(Squarings(s, a, n), b, n) == Bits(s, a + b, n)
    ensures Squarings(Squarings(s, a, n), b, n) == Squarings(s, a + b, n)
  {
    SquaringsAdd(s, a, b, n);
    if b > 0 {
      BitsCompose(s, a, b - 1, n);
      SquaringsAdd(s, a, b, n);
      assert Bits(s, a, n) + Bits(Squarings(s, a, n), b, n)
        == (Bits(s, a, n) + Bits(Squarings(s, a, n), b - 1, n)) + [Squarings(Squarings(s, a, n), b, n) % 2];
    }
  }

  /** With no shift (and (p - 1)(q - 1) > 1) the start state is the seed
      reduced modulo n. */
  lemma StartWithoutShift(p: int, q: int, s: int)
    requires p >= 2 && q >= 2 && Totient(p, q) > 1
    ensures StartState(p, q, s, 0) == s % Modulus(p, q)
  {
    var phi, n := Totient(p, q), Modulus(p, q);
    DivModUnique(1, phi, 0, 1);
    assert Pow(s % n, 1) == s % n;
    DivModUnique(s % n, n, 0, s % n);
  }

  /** skipbits(0) leaves a reduced state unchanged when (p - 1)(q - 1) > 1. */
  lemma SkipNothing(s: int, p: int, q: int)
    requires p >= 2 && q >= 2 && Totient(p, q) > 1 && 0 <= s < Modulus(p, q)
    ensures SkipState(s, 0, p, q) == s
  {
    var phi, n := Totient(p, q), Modulus(p, q);
    DivModUnique(1, phi, 0, 1);
    assert Pow(s, 1) == s;
    DivModUnique(s, n, 0, s);
  }

  /** k squarings of a reduced state raise it to 2^k. */
  lemma SquaringsArePower(s: int, k: nat, n: int)
    requires n > 0 && 0 <= s < n
    ensures Squarings(s, k, n) == PowMod(s, Pow(2, k), n)
  {
    assert Pow(s, 1) == s;
    DivModUnique(s, n, 0, s);
    assert PowMod(s, 1, n) == s;
    SquaringsArePowers(s, 1, k, n);
  }

  /** skipbits(k) reaches the state of k calls of genbit, given that
      s^((p - 1)(q - 1)) = 1 (mod n), which Euler's theorem supplies for
      distinct primes p, q and a state coprime to n. */
  lemma SkipMatchesSquarings(s: int, k: nat, p: int, q: int)
    requires p >= 2 && q >= 2 && 0 <= s < Modulus(p, q)
    requires PowMod(s, Totient(p, q), Modulus(p, q)) == 1
    ensures SkipState(s, k, p, q) == Squarings(s, k, Modulus(p, q))
  {
    PowModReduceExponent(s, Pow(2, k), Totient(p, q), Modulus(p, q));
    SquaringsArePower(s, k, Modulus(p, q));
  }

  /** The generator object; genbit, genbits and skipbits update s in place. */
  class BBS {
    var p: int
    var q: int
    var n: int
    var s: int

    ghost predicate Valid()
      reads this
    {
      p >= 2 && q >= 2 && n == Modulus(p, q) && 0 <= s < n
    }

    constructor (p: int, q: int, s: int, shift: nat)
      requires p >= 2 && q >= 2
      ensures Valid()
      ensures this.p == p && this.q == q && this.n == p * q
      ensures this.s == StartState(p, q, s, shift)
    {
      this.p := p;
      this.q := q;
      this.n := p * q;
      var power := Pow(2, shift) % Totient(p, q);
      var s' := s % Modulus(p, q);
      this.s := PowMod(s', power, Modulus(p, q));
    }

    /** One squaring; the bit is the parity of the new state. */
    method GenBit() returns (b: Bit)
      requires Valid()
      modifies this
      ensures Valid() && p == old(p) && q == old(q) && n == old(n)
      ensures s == Squarings(old(s), 1, n)
      ensures b == s % 2
    {
      s := (s * s) % n;
      b := s % 2;
    }

    method GenBits(k: nat) returns (bits: seq<Bit>)
      requires Valid()
      modifies this
      ensures Valid() && p == old(p) && q == old(q) && n == old(n)
      ensures bits == Bits(old(s), k, n)
      ensures s == Squarings(old(s), k, n)
    {
      bits := [];
      ghost var s0 := s;
      var i := 0;
      while i < k
        invariant 0 <= i <= k
        invariant Valid() && p == old(p) && q == old(q) && n == old(n)
        invariant bits == Bits(s0, i, n)
        invariant s == Squarings(s0, i, n)
      {
        var b := GenBit();
        bits := bits + [b];
        i := i + 1;
      }
    }

    method SkipBits(k: nat)
      requires Valid()
      modifies this
      ensures Valid() && p == old(p) && q == old(q) && n == old(n)
      ensures s == SkipState(old(s), k, p, q)
    {
      var power := Pow(2, k) % Totient(p, q);
      s := PowMod(s, power, n);
    }
  }
}
