/** The entropy encoder: each m-of-n lottery draw is ranked in the
    combinatorial number system, the ranks are folded into a mixed-radix
    seed below a bound L until L reaches 2^E, and then the parities of the
    following draws are appended above L as B lone bits. */
module DrawsToSeed {
  import opened Wrappers
  import opened Arith

  /** One line of the draw file, already split into its fields. */
  datatype Line =
    | Blank
    | Comment
      /** `id m n values`; outcome None is a draw written `None`. */
    | Draw(id: string, m: nat, n: int, outcome: Option<seq<int>>)

  /** The seed and the bound L * 2^B written to the seed file. */
  datatype SeedOutput = SeedOutput(seed: int, upperBound: int)

  // ---------------------------------------------------------------------
  // Ranking a draw

  predicate IsSorted(s: seq<int>)
  {
    forall i, j :: 0 <= i < j < |s| ==> s[i] <= s[j]
  }

  predicate StrictlyIncreasing(s: seq<int>)
  {
    forall i, j :: 0 <= i < j < |s| ==> s[i] < s[j]
  }

  lemma SortedCons(h: int, t: seq<int>)
    requires IsSorted(t) && forall k :: 0 <= k < |t| ==> h <= t[k]
    ensures IsSorted([h] + t)
  {
    forall i, j | 0 <= i < j < |[h] + t| ensures ([h] + t)[i] <= ([h] + t)[j] {
      if i > 0 {
        assert ([h] + t)[i] == t[i - 1] && ([h] + t)[j] == t[j - 1];
      }
    }
  }

  function Insert(x: int, s: seq<int>): (r: seq<int>)
    requires IsSorted(s)
    ensures IsSorted(r) && multiset(r) == multiset(s) + multiset{x} && |r| == |s| + 1
  {
    if s == [] then [x]
    else if x <= s[0] then
      SortedCons(x, s);
      [x] + s
    else
      assert s == [s[0]] + s[1..];
      var r' := Insert(x, s[1..]);
      assert forall k :: 0 <= k < |r'| ==> s[0] <= r'[k] by {
        forall k | 0 <= k < |r'| ensures s[0] <= r'[k] {
          assert r'[k] in multiset(r');
          if r'[k] != x {
            assert r'[k] in multiset(s[1..]);
            var j :| 0 <= j < |s[1..]| && s[1..][j] == r'[k];
            assert s[1..][j] == s[j + 1];
          }
        }
      }
      SortedCons(s[0], r');
      [s[0]] + r'
  }

  /** Python's sorted(): the ascending permutation of the draw. */
  function SortDraw(d: seq<int>): (r: seq<int>)
    ensures IsSorted(r) && multiset(r) == multiset(d) && |r| == |d|
  {
    if d == [] then []
    else
      assert d == [d[0]] + d[1..];
      Insert(d[0], SortDraw(d[1..]))
  }

  /** Two ascending sequences with the same elements are equal. */
  lemma {:induction false} SortedUnique(a: seq<int>, b: seq<int>)
    requires IsSorted(a) && IsSorted(b) && multiset(a) == multiset(b)
    ensures a == b
  {
    if a != [] {
      assert |b| == |a| by { assert |multiset(a)| == |multiset(b)|; }
      SameHead(a, b);
      DropHead(a);
      DropHead(b);
      SortedUnique(a[1..], b[1..]);
      assert a == [a[0]] + a[1..];
      assert b == [b[0]] + b[1..];
    }
  }

  /** Two non-empty ascending sequences with the same elements start alike. */
  lemma SameHead(a: seq<int>, b: seq<int>)
    requires a != [] && b != []
    requires IsSorted(a) && IsSorted(b) && multiset(a) == multiset(b)
    ensures a[0] == b[0]
  {
    assert a[0] in multiset(b);
    assert b[0] in multiset(a);
    var i :| 0 <= i < |b| && b[i] == a[0];
    var j :| 0 <= j < |a| && a[j] == b[0];
  }

  /** Dropping the head keeps a sequence ascending and removes one copy of it. */
  lemma DropHead(a: seq<int>)
    requires a != [] && IsSorted(a)
    ensures IsSorted(a[1..]) && multiset(a[1..]) == multiset(a) - multiset{a[0]}
  {
    assert a == [a[0]] + a[1..];
  }

  /** The rank of c_1 < ... < c_k: the sum of C(c_i - 1, i). */
  function Rank(cs: seq<int>): (r: int)
  {
    if cs == [] then 0 else Rank(cs[..|cs| - 1]) + Binom(cs[|cs| - 1] - 1, |cs|)
  }

  /** index_from_draw(draw, m): the rank of the m smallest values, or an
      error when the draw has fewer than m values. */
  function DrawIndex(d: seq<int>, m: nat): (r: Result<int, Failure>)
  {
    if m > |d| then Err(MalformedDraw) else Ok(Rank(SortDraw(d)[..m]))
  }

  /** The index depends only on the drawn values, not on their order. */
  lemma IndexIgnoresOrder(d1: seq<int>, d2: seq<int>, m: nat)
    requires multiset(d1) == multiset(d2)
    ensures DrawIndex(d1, m) == DrawIndex(d2, m)
  {
    SortedUnique(SortDraw(d1), SortDraw(d2));
    assert |d1| == |d2| by { assert |multiset(d1)| == |multiset(d2)|; }
  }

  /** The combinatorial number system bound: increasing values from 1 to ub
      have a rank below C(ub, k). */
  lemma {:induction false} RankBound(cs: seq<int>, ub: nat)
    requires StrictlyIncreasing(cs)
    requires forall i :: 0 <= i < |cs| ==> 1 <= cs[i] <= ub
    ensures 0 <= Rank(cs) < BinomNat(ub, |cs|)
  {
    if cs != [] {
      var k := |cs|;
      var c := cs[k - 1];
      var prefix := cs[..k - 1];
      RankBound(prefix, c - 1);
      assert Binom(c - 1, k) == BinomNat(c - 1, k);
      assert BinomNat(c, k) == BinomNat(c - 1, k - 1) + BinomNat(c - 1, k);
      BinomMonotone(c, ub, k);
    }
  }

  /** A larger last value wins: the rank of an increasing sequence whose
      last value is c is at least C(c - 1, k). */
  lemma RankAtLeastLastTerm(cs: seq<int>)
    requires cs != [] && StrictlyIncreasing(cs)
    requires forall i :: 0 <= i < |cs| ==> cs[i] >= 1
    ensures Rank(cs) >= BinomNat(cs[|cs| - 1] - 1, |cs|)
  {
    var prefix := cs[..|cs| - 1];
    RankBound(prefix, cs[|cs| - 1]);
  }

  /** Ranks are injective on increasing sequences of positive values. */
  lemma {:induction false} RankInjective(cs: seq<int>, ds: seq<int>)
    requires |cs| == |ds| && StrictlyIncreasing(cs) && StrictlyIncreasing(ds)
    requires forall i :: 0 <= i < |cs| ==> cs[i] >= 1
    requires forall i :: 0 <= i < |ds| ==> ds[i] >= 1
    requires Rank(cs) == Rank(ds)
    ensures cs == ds
  {
    if cs != [] {
      var k := |cs|;
      SameRankSameLast(cs, ds);
      SameRankSameLast(ds, cs);
      RankInjective(cs[..k - 1], ds[..k - 1]);
      assert cs == cs[..k - 1] + [cs[k - 1]] && ds == ds[..k - 1] + [ds[k - 1]];
    }
  }

  /** Of two increasing sequences of the same length and rank, the first
      cannot end on the smaller value. */
  lemma SameRankSameLast(cs: seq<int>, ds: seq<int>)
    requires |cs| == |ds| && cs != [] && StrictlyIncreasing(cs) && StrictlyIncreasing(ds)
    requires forall i :: 0 <= i < |cs| ==> cs[i] >= 1
    requires forall i :: 0 <= i < |ds| ==> ds[i] >= 1
    requires Rank(cs) == Rank(ds)
    ensures cs[|cs| - 1] >= ds[|ds| - 1]
  {
    var k := |cs|;
    var c, d := cs[k - 1], ds[k - 1];
    if c < d {
      RankBound(cs, c);
      BinomMonotone(c, d - 1, k);
      RankAtLeastLastTerm(ds);
    }
  }

  /** The draw as the ranking needs it: at least m values, the m smallest
      distinct and between 1 and n. */
  predicate WellFormedDraw(d: seq<int>, m: nat, n: int)
  {
    && m <= |d| && n >= 0
    && StrictlyIncreasing(SortDraw(d)[..m])
    && forall i :: 0 <= i < m ==> 1 <= SortDraw(d)[i] <= n
  }

  /** A well-formed draw has an index in [0, C(n, m)), and C(n, m) >= 1. */
  lemma WellFormedIndexBound(d: seq<int>, m: nat, n: int)
    requires WellFormedDraw(d, m, n)
    ensures DrawIndex(d, m).Ok?
    ensures 0 <= DrawIndex(d, m).value < Binom(n, m)
  {
    var cs := SortDraw(d)[..m];
    RankBound(cs, n);
  }

  /** index_from_draw with its loop over the m smallest values. */
  method IndexFromDraw(d: seq<int>, m: nat) returns (r: Result<int, Failure>)
    ensures r == DrawIndex(d, m)
  {
    var sorted := SortDraw(d);
    var index := 0;
    var i := 0;
    while i < m
      invariant 0 <= i <= m && i <= |sorted|
      invariant index == Rank(sorted[..i])
    {
      if i >= |sorted| {
        return Err(MalformedDraw);
      }
      assert sorted[..i + 1][..i] == sorted[..i];
      index := index + Binom(sorted[i] - 1, i + 1);
      i := i + 1;
    }
    return Ok(index);
  }

  // ---------------------------------------------------------------------
  // Folding the draws into the seed

  /** What one used draw does to (seed, L, lone bits still wanted): below
      2^E it extends the mixed-radix seed by the radix C(n, m); from then on
      it adds its parity as lone bit number B - remaining, at L * 2^(B - remaining). */
  function UseDraw(seed: int, L: int, remaining: int, index: int, m: nat, n: int, E: nat, B: nat): (r: (int, int, int))
    requires remaining <= B
  {
    if L < Pow(2, E) then (Binom(n, m) * seed + index, L * Binom(n, m), remaining)
    else (seed + L * ((index % 2) * Pow(2, B - remaining)), L, remaining - 1)
  }

  /** The loop over the lines, as written: skip blank lines, comments and
      `None` draws, use the rest, and stop right after a draw leaves L >= 2^E
      with no lone bit wanted. The result is the final (seed, L, remaining). */
  function FoldLines(lines: seq<Line>, E: nat, B: nat, seed: int, L: int, remaining: int): (r: Result<(int, int, int), Failure>)
    requires remaining <= B
  {
    if lines == [] then Ok((seed, L, remaining))
    else match lines[0]
      case Blank => FoldLines(lines[1..], E, B, seed, L, remaining)
      case Comment => FoldLines(lines[1..], E, B, seed, L, remaining)
      case Draw(_, m, n, outcome) =>
        if outcome.None? then FoldLines(lines[1..], E, B, seed, L, remaining)
        else match DrawIndex(outcome.value, m)
          case Err(e) => Err(e)
          case Ok(index) =>
            var (seed', L', remaining') := UseDraw(seed, L, remaining, index, m, n, E, B);
            if L' >= Pow(2, E) && remaining' == 0 then Ok((seed', L', remaining'))
            else FoldLines(lines[1..], E, B, seed', L', remaining')
  }

  /** A blank line, a comment or a draw without an outcome is skipped. */
  lemma FoldLinesSkip(lines: seq<Line>, E: nat, B: nat, seed: int, L: int, remaining: int)
    requires remaining <= B && lines != []
    requires lines[0].Blank? || lines[0].Comment? || lines[0].outcome.None?
    ensures FoldLines(lines, E, B, seed, L, remaining) == FoldLines(lines[1..], E, B, seed, L, remaining)
  {
  }

  /** One used draw line of the loop: the draw's state update, then either
      the early stop or the rest of the lines. */
  lemma FoldLinesUse(lines: seq<Line>, E: nat, B: nat, seed: int, L: int, remaining: int, index: int)
    requires remaining <= B && lines != [] && lines[0].Draw? && lines[0].outcome.Some?
    requires DrawIndex(lines[0].outcome.value, lines[0].m) == Ok(index)
    ensures UseDraw(seed, L, remaining, index, lines[0].m, lines[0].n, E, B).2 <= B
    ensures var next := UseDraw(seed, L, remaining, index, lines[0].m, lines[0].n, E, B);
      FoldLines(lines, E, B, seed, L, remaining)
      == if next.1 >= Pow(2, E) && next.2 == 0 then Ok(next)
         else FoldLines(lines[1..], E, B, next.0, next.1, next.2)
  {
  }

  /** The seed and bound the script writes, or the error it exits with. */
  function SeedFromDraws(lines: seq<Line>, E: nat, B: nat): Result<SeedOutput, Failure>
  {
    match FoldLines(lines, E, B, 0, 1, B)
    case Err(e) => Err(e)
    case Ok((seed, L, remaining)) =>
      if remaining > 0 || L < Pow(2, E) then Err(InsufficientEntropy)
      else Ok(SeedOutput(seed, L * Pow(2, B)))
  }

  /** Every draw line that is used is well formed. */
  predicate WellFormedLines(lines: seq<Line>)
  {
    forall i :: 0 <= i < |lines| && lines[i].Draw? && lines[i].outcome.Some? ==>
      WellFormedDraw(lines[i].outcome.value, lines[i].m, lines[i].n)
  }

  /** The state between two lines: while entropy is gathered, 0 <= seed < L
      and all B lone bits are still wanted; afterwards at least one lone bit
      is still wanted and 0 <= seed < L * 2^(B - remaining). */
  predicate Running(seed: int, L: int, remaining: int, E: nat, B: nat)
  {
    && L >= 1 && seed >= 0 && remaining <= B
    && (L < Pow(2, E) ==> remaining == B && seed < L)
    && (L >= Pow(2, E) ==> 1 <= remaining && seed < L * Pow(2, B - remaining))
  }

  /** The state after the loop stopped on its own condition. */
  predicate Finished(seed: int, L: int, remaining: int, E: nat, B: nat)
  {
    L >= Pow(2, E) && remaining == 0 && 0 <= seed < L * Pow(2, B)
  }

  lemma MulAddBound(C: int, seed: int, index: int, L: int)
    requires C >= 1 && 0 <= seed < L && 0 <= index < C
    ensures 0 <= C * seed + index < L * C
  {
    MulMonotone(seed + 1, L, C);
    MulMonotone(0, seed, C);
  }

  lemma LoneBitBound(seed: int, L: int, b: int, j: nat)
    requires L >= 1 && 0 <= seed < L * Pow(2, j) && 0 <= b <= 1
    ensures 0 <= seed + L * (b * Pow(2, j)) < L * Pow(2, j + 1)
  {
    var P := Pow(2, j);
    assert Pow(2, j + 1) == 2 * P;
    MulMonotone(b, 1, P);
    MulMonotone(b * P, P, L);
    MulMonotone(0, b * P, L);
    assert L * (b * P) == (b * P) * L;
    MulAssoc(L, 2, P);
  }

  /** One used draw keeps the state Running, or Finished when it stops. */
  lemma UseDrawKeepsBound(seed: int, L: int, remaining: int, index: int, m: nat, n: int, E: nat, B: nat)
    requires Running(seed, L, remaining, E, B)
    requires 0 <= index < Binom(n, m)
    ensures var (seed', L', remaining') := UseDraw(seed, L, remaining, index, m, n, E, B);
      remaining' <= B &&
      if L' >= Pow(2, E) && remaining' == 0 then Finished(seed', L', remaining', E, B)
      else Running(seed', L', remaining', E, B)
  {
    var C := Binom(n, m);
    if L < Pow(2, E) {
      MulAddBound(C, seed, index, L);
      MulMonotone(1, L, C);
      assert L * C >= 1;
    } else {
      LoneBitBound(seed, L, index % 2, B - remaining);
      assert B - (remaining - 1) == B - remaining + 1;
    }
  }

  /** The loop keeps the seed within its bound. */
  lemma {:induction false} FoldKeepsBound(lines: seq<Line>, E: nat, B: nat, seed: int, L: int, remaining: int)
    requires WellFormedLines(lines) && Running(seed, L, remaining, E, B)
    ensures FoldLines(lines, E, B, seed, L, remaining).Ok? ==>
      var (s, l, r) := FoldLines(lines, E, B, seed, L, remaining).value;
      Running(s, l, r, E, B) || Finished(s, l, r, E, B)
  {
    if lines != [] {
      assert WellFormedLines(lines[1..]) by {
        forall i | 0 <= i < |lines[1..]| ensures lines[1..][i] == lines[i + 1] { }
      }
      match lines[0]
      case Blank => FoldKeepsBound(lines[1..], E, B, seed, L, remaining);
      case Comment => FoldKeepsBound(lines[1..], E, B, seed, L, remaining);
      case Draw(_, m, n, outcome) =>
        if outcome.None? {
          FoldKeepsBound(lines[1..], E, B, seed, L, remaining);
        } else {
          assert WellFormedDraw(outcome.value, m, n) by { assert lines[0] == lines[0 + 0]; }
          WellFormedIndexBound(outcome.value, m, n);
          var index := DrawIndex(outcome.value, m).value;
          UseDrawKeepsBound(seed, L, remaining, index, m, n, E, B);
          var (seed', L', remaining') := UseDraw(seed, L, remaining, index, m, n, E, B);
          if !(L' >= Pow(2, E) && remaining' == 0) {
            FoldKeepsBound(lines[1..], E, B, seed', L', remaining');
          }
        }
    }
  }

  /** With E >= 1 or B >= 1 and well-formed draws, a seed the script writes
      lies in [0, L * 2^B). */
  lemma SeedWithinBound(lines: seq<Line>, E: nat, B: nat)
    requires WellFormedLines(lines) && (E >= 1 || B >= 1)
    ensures SeedFromDraws(lines, E, B).Ok? ==>
      0 <= SeedFromDraws(lines, E, B).value.seed < SeedFromDraws(lines, E, B).value.upperBound
  {
    if E >= 1 {
      PowStrict(2, 0, E);
    }
    assert Running(0, 1, B, E, B);
    FoldKeepsBound(lines, E, B, 0, 1, B);
  }

  /** With E = 0 and B = 0 the first draw already counts as a lone bit, the
      counter passes zero without stopping, and two odd-ranked draws give
      seed 3 against a written bound of 1. */
  lemma NoEntropyNoLoneBitsCounterexample()
    ensures var lines := [Draw("1", 1, 10, Some([2])), Draw("2", 1, 10, Some([2]))];
      WellFormedLines(lines) &&
      SeedFromDraws(lines, 0, 0) == Ok(SeedOutput(3, 1))
  {
    var lines := [Draw("1", 1, 10, Some([2])), Draw("2", 1, 10, Some([2]))];
    assert SortDraw([2]) == [2];
    assert [2][..1] == [2];
    assert Rank([2]) == 1 by {
      assert [2][..0] == [];
      assert Binom(1, 1) == 1;
    }
    assert DrawIndex([2], 1) == Ok(1);
    assert StrictlyIncreasing(SortDraw([2])[..1]);
    assert WellFormedLines(lines) by {
      forall i | 0 <= i < |lines| && lines[i].Draw? && lines[i].outcome.Some?
        ensures WellFormedDraw(lines[i].outcome.value, lines[i].m, lines[i].n)
      {
        assert lines[i].outcome.value == [2];
      }
    }
    assert UseDraw(0, 1, 0, 1, 1, 10, 0, 0) == (1, 1, -1);
    assert Pow(2, 1) == 2;
    assert UseDraw(1, 1, -1, 1, 1, 10, 0, 0) == (3, 1, -2);
    assert FoldLines(lines[1..][1..], 0, 0, 3, 1, -2) == Ok((3, 1, -2));
    assert FoldLines(lines[1..], 0, 0, 1, 1, -1) == Ok((3, 1, -2));
  }

  /** The loop with the stop test moved before each line: a draw is only
      used while entropy or lone bits are still wanted. */
  function FoldLinesChecked(lines: seq<Line>, E: nat, B: nat, seed: int, L: int, remaining: int): Result<(int, int, int), Failure>
    requires remaining <= B
  {
    if L >= Pow(2, E) && remaining <= 0 then Ok((seed, L, remaining))
    else if lines == [] then Ok((seed, L, remaining))
    else match lines[0]
      case Blank => FoldLinesChecked(lines[1..], E, B, seed, L, remaining)
      case Comment => FoldLinesChecked(lines[1..], E, B, seed, L, remaining)
      case Draw(_, m, n, outcome) =>
        if outcome.None? then FoldLinesChecked(lines[1..], E, B, seed, L, remaining)
        else match DrawIndex(outcome.value, m)
          case Err(e) => Err(e)
          case Ok(index) =>
            var (seed', L', remaining') := UseDraw(seed, L, remaining, index, m, n, E, B);
            FoldLinesChecked(lines[1..], E, B, seed', L', remaining')
  }

  function SeedFromDrawsChecked(lines: seq<Line>, E: nat, B: nat): Result<SeedOutput, Failure>
  {
    match FoldLinesChecked(lines, E, B, 0, 1, B)
    case Err(e) => Err(e)
    case Ok((seed, L, remaining)) =>
      if remaining > 0 || L < Pow(2, E) then Err(InsufficientEntropy)
      else Ok(SeedOutput(seed, L * Pow(2, B)))
  }

  /** The checked loop keeps the bound. */
  lemma {:induction false} FoldCheckedKeepsBound(lines: seq<Line>, E: nat, B: nat, seed: int, L: int, remaining: int)
    requires WellFormedLines(lines)
    requires Running(seed, L, remaining, E, B) || Finished(seed, L, remaining, E, B)
    ensures FoldLinesChecked(lines, E, B, seed, L, remaining).Ok? ==>
      var (s, l, r) := FoldLinesChecked(lines, E, B, seed, L, remaining).value;
      Running(s, l, r, E, B) || Finished(s, l, r, E, B)
  {
    if !(L >= Pow(2, E) && remaining <= 0) && lines != [] {
      assert Running(seed, L, remaining, E, B);
      assert WellFormedLines(lines[1..]) by {
        forall i | 0 <= i < |lines[1..]| ensures lines[1..][i] == lines[i + 1] { }
      }
      match lines[0]
      case Blank => FoldCheckedKeepsBound(lines[1..], E, B, seed, L, remaining);
      case Comment => FoldCheckedKeepsBound(lines[1..], E, B, seed, L, remaining);
      case Draw(_, m, n, outcome) =>
        if outcome.None? {
          FoldCheckedKeepsBound(lines[1..], E, B, seed, L, remaining);
        } else {
          assert WellFormedDraw(outcome.value, m, n) by { assert lines[0] == lines[0 + 0]; }
          WellFormedIndexBound(outcome.value, m, n);
          var index := DrawIndex(outcome.value, m).value;
          UseDrawKeepsBound(seed, L, remaining, index, m, n, E, B);
          var (seed', L', remaining') := UseDraw(seed, L, remaining, index, m, n, E, B);
          FoldCheckedKeepsBound(lines[1..], E, B, seed', L', remaining');
        }
    }
  }

  /** With E >= 1 or B >= 1 the script as written and the checked loop
      give the same result. */
  lemma SeedFromDrawsAgrees(lines: seq<Line>, E: nat, B: nat)
    requires E >= 1 || B >= 1
    ensures SeedFromDrawsChecked(lines, E, B) == SeedFromDraws(lines, E, B)
  {
    if E >= 1 {
      PowStrict(2, 0, E);
    }
    CheckedAgrees(lines, E, B, 0, 1, B);
  }

  /** With the stop test first, the written seed lies below the written
      bound for every E and B, E = B = 0 included. */
  lemma SeedWithinBoundChecked(lines: seq<Line>, E: nat, B: nat)
    requires WellFormedLines(lines)
    ensures SeedFromDrawsChecked(lines, E, B).Ok? ==>
      0 <= SeedFromDrawsChecked(lines, E, B).value.seed < SeedFromDrawsChecked(lines, E, B).value.upperBound
  {
    if E >= 1 {
      PowStrict(2, 0, E);
    }
    if E == 0 && B == 0 {
      assert Finished(0, 1, 0, E, B);
    } else {
      assert Running(0, 1, B, E, B);
    }
    FoldCheckedKeepsBound(lines, E, B, 0, 1, B);
  }

  /** From any state that has not stopped, with the counter not below zero,
      the two loops agree: the stop test after a draw and the stop test
      before the next line see the same state. */
  lemma {:induction false} CheckedAgrees(lines: seq<Line>, E: nat, B: nat, seed: int, L: int, remaining: int)
    requires 0 <= remaining <= B && !(L >= Pow(2, E) && remaining == 0)
    ensures FoldLinesChecked(lines, E, B, seed, L, remaining) == FoldLines(lines, E, B, seed, L, remaining)
  {
    if lines != [] {
      match lines[0]
      case Blank => CheckedAgrees(lines[1..], E, B, seed, L, remaining);
      case Comment => CheckedAgrees(lines[1..], E, B, seed, L, remaining);
      case Draw(_, m, n, outcome) =>
        if outcome.None? {
          CheckedAgrees(lines[1..], E, B, seed, L, remaining);
        } else if DrawIndex(outcome.value, m).Ok? {
          var index := DrawIndex(outcome.value, m).value;
          var (seed', L', remaining') := UseDraw(seed, L, remaining, index, m, n, E, B);
          if L' >= Pow(2, E) && remaining' == 0 {
            assert FoldLinesChecked(lines[1..], E, B, seed', L', remaining') == Ok((seed', L', remaining'));
          } else {
            CheckedAgrees(lines[1..], E, B, seed', L', remaining');
          }
        }
    }
  }

  /** The script: the draw-file loop, then the final quota check and the
      bound L * 2^B it writes. */
  method DrawsToSeedMain(lines: seq<Line>, E: nat, B: nat) returns (r: Result<SeedOutput, Failure>)
    ensures r == SeedFromDraws(lines, E, B)
    ensures E >= 1 || B >= 1 ==> r == SeedFromDrawsChecked(lines, E, B)
    ensures WellFormedLines(lines) && (E >= 1 || B >= 1) && r.Ok? ==> 0 <= r.value.seed < r.value.upperBound
  {
    if E >= 1 || B >= 1 {
      SeedFromDrawsAgrees(lines, E, B);
      if WellFormedLines(lines) {
        SeedWithinBound(lines, E, B);
      }
    }
    var folded := FoldDrawLines(lines, E, B);
    if folded.Err? {
      return Err(folded.error);
    }
    var (seed, L, remaining) := folded.value;
    if remaining > 0 || L < Pow(2, E) {
      return Err(InsufficientEntropy);
    }
    return Ok(SeedOutput(seed, L * Pow(2, B)));
  }

  /** The draw file loop of the script, line by line, with its early stop. */
  method FoldDrawLines(lines: seq<Line>, E: nat, B: nat) returns (r: Result<(int, int, int), Failure>)
    ensures r == FoldLines(lines, E, B, 0, 1, B)
  {
    var seed := 0;
    var L := 1;
    var remaining: int := B;
    var i := 0;
    while i < |lines|
      invariant 0 <= i <= |lines| && remaining <= B
      invariant FoldLines(lines, E, B, 0, 1, B) == FoldLines(lines[i..], E, B, seed, L, remaining)
    {
      assert lines[i..][1..] == lines[i + 1..];
      ghost var rest := lines[i..];
      var line := lines[i];
      i := i + 1;
      if line.Blank? || line.Comment? || line.outcome.None? {
        FoldLinesSkip(rest, E, B, seed, L, remaining);
        continue;
      }
      var index := IndexFromDraw(line.outcome.value, line.m);
      if index.Err? {
        return Err(index.error);
      }
      FoldLinesUse(rest, E, B, seed, L, remaining, index.value);
      ghost var next := UseDraw(seed, L, remaining, index.value, line.m, line.n, E, B);
      var C := Binom(line.n, line.m);
      if L < Pow(2, E) {
        seed := C * seed + index.value;
        L := L * C;
      } else {
        var b := index.value % 2;
        seed := seed + L * (b * Pow(2, B - remaining));
        remaining := remaining - 1;
      }
      assert (seed, L, remaining) == next;
      if L >= Pow(2, E) && remaining == 0 {
        break;
      }
    }
    return Ok((seed, L, remaining));
  }
}
