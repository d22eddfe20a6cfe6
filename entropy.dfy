/**
 * The frequency-table engine of libentropy: a context holding 256 byte
 * counters and a symbol count, the in-place update that feeds bytes into it,
 * and the two statistics computed from it (Shannon entropy and Pearson's
 * chi-squared statistic against a uniform byte distribution).
 *
 * C `double` values are modelled by `Float`: a finite real, or a value that
 * `isfinite` rejects (an infinity or a NaN). Rounding is not modelled.
 */
module Entropy {

  const TWO_32: int := 0x1_0000_0000
  const TWO_64: int := 0x1_0000_0000_0000_0000

  /** `unsigned long long`: every counter and the symbol count. */
  type u64 = x: int | 0 <= x < 0x1_0000_0000_0000_0000

  /** An `unsigned char`, the index into the frequency table. */
  type Byte = x: int | 0 <= x < 256

  /** Number of counters in the frequency table, one per byte value. */
  const TABLE_SIZE: int := 256

  /** Algorithm selectors (`ec_algo`). */
  const ALGO_SHANNON: int := 0
  const ALGO_CHISQ: int := 1
  const ALGO_BFD: int := 2

  /** Status codes (`ec_status`); the source spells the last one UNKOWN_ALGO. */
  const STATUS_SUCCESS: int := 0
  const STATUS_FP_ERROR: int := 1
  const STATUS_UNKNOWN_ALGO: int := 2

  /** A C `double` as far as this model needs it. */
  datatype Float = Finite(value: real) | NonFinite

  /** The status both statistics report: `isfinite(result)` decides it. */
  function StatusOf(f: Float): int
  {
    if f.Finite? then STATUS_SUCCESS else STATUS_FP_ERROR
  }

  /** `a - b` on doubles: an infinity or a NaN on either side gives a non-finite result. */
  function Minus(a: Float, b: Float): Float
  {
    if a.Finite? && b.Finite? then Finite(a.value - b.value) else NonFinite
  }

  // ---------------------------------------------------------------------
  // Counting bytes
  // ---------------------------------------------------------------------

  /** The all-zero table of a freshly `memset` context. */
  function Zeros(): (t: seq<u64>)
    ensures |t| == TABLE_SIZE
  {
    seq(TABLE_SIZE, i => 0)
  }

  /** `ec_freq_table[b]++` on a 64-bit unsigned counter. */
  function Bump(t: seq<u64>, b: Byte): seq<u64>
    requires |t| == TABLE_SIZE
  {
    t[b := (t[b] + 1) % TWO_64]
  }

  /** The table after counting the bytes of `buf`, first to last, into `t`. */
  function Tally(t: seq<u64>, buf: seq<Byte>): (r: seq<u64>)
    requires |t| == TABLE_SIZE
    ensures |r| == TABLE_SIZE
  {
    if |buf| == 0 then t else Bump(Tally(t, buf[..|buf| - 1]), buf[|buf| - 1])
  }

  function Sum(t: seq<int>): int
  {
    if t == [] then 0 else t[0] + Sum(t[1..])
  }

  lemma ModSucc(x: int)
    requires 0 <= x
    ensures (x % TWO_64 + 1) % TWO_64 == (x + 1) % TWO_64
  {
  }

  lemma ModShift(a: int, b: int, k: int)
    requires a % TWO_64 == b % TWO_64
    ensures (a + k) % TWO_64 == (b + k) % TWO_64
  {
    var qa, qb := a / TWO_64, b / TWO_64;
    assert a == TWO_64 * qa + a % TWO_64;
    assert b == TWO_64 * qb + b % TWO_64;
    assert a + k == b + k + TWO_64 * (qa - qb);
    ModPeriodic(b + k, qa - qb);
  }

  lemma ModPeriodic(x: int, q: int)
    ensures (x + TWO_64 * q) % TWO_64 == x % TWO_64
  {
  }

  /** Every counter grows by the number of occurrences of its byte, modulo 2^64. */
  lemma {:induction false} TallyAt(t: seq<u64>, buf: seq<Byte>, b: Byte)
    requires |t| == TABLE_SIZE
    ensures Tally(t, buf)[b] == (t[b] + multiset(buf)[b]) % TWO_64
  {
    if buf != [] {
      var init, last := buf[..|buf| - 1], buf[|buf| - 1];
      assert buf == init + [last];
      assert multiset(buf) == multiset(init) + multiset{last};
      TallyAt(t, init, b);
      if last == b {
        var seen: multiset<Byte> := multiset(init);
        ModSucc(t[b] + seen[b]);
      }
    }
  }

  /** Counting is order-independent: only how often each byte occurs matters. */
  lemma TallyPermutation(t: seq<u64>, a: seq<Byte>, b: seq<Byte>)
    requires |t| == TABLE_SIZE
    requires multiset(a) == multiset(b)
    ensures Tally(t, a) == Tally(t, b)
  {
    forall i | 0 <= i < TABLE_SIZE
      ensures Tally(t, a)[i] == Tally(t, b)[i]
    {
      TallyAt(t, a, i);
      TallyAt(t, b, i);
    }
  }

  /** Chunk-size independence: counting `a` then `b` equals counting `a + b`. */
  lemma {:induction false} TallyConcat(t: seq<u64>, a: seq<Byte>, b: seq<Byte>)
    requires |t| == TABLE_SIZE
    ensures Tally(Tally(t, a), b) == Tally(t, a + b)
  {
    if b == [] {
      assert a + b == a;
    } else {
      assert (a + b)[..|a + b| - 1] == a + b[..|b| - 1];
      TallyConcat(t, a, b[..|b| - 1]);
    }
  }

  lemma {:induction false} SumUpdate(t: seq<int>, i: int, v: int)
    requires 0 <= i < |t|
    ensures Sum(t[i := v]) == Sum(t) - t[i] + v
  {
    if i > 0 {
      assert t[i := v][1..] == t[1..][i - 1 := v];
      SumUpdate(t[1..], i - 1, v);
    } else {
      assert t[i := v][1..] == t[1..];
    }
  }

  lemma {:induction false} EntryAtMostSum(t: seq<u64>, i: int)
    requires 0 <= i < |t|
    ensures t[i] <= Sum(t)
  {
    if i > 0 {
      EntryAtMostSum(t[1..], i - 1);
    }
    NonNegativeSum(t[1..]);
  }

  lemma {:induction false} NonNegativeSum(t: seq<u64>)
    ensures 0 <= Sum(t)
  {
    if t != [] {
      NonNegativeSum(t[1..]);
    }
  }

  /**
   * The invariant `sum(table) == symbol_count` holds modulo 2^64 across an
   * update that adds |buf| to the count: counting a byte adds one to the sum,
   * or subtracts 2^64 - 1 when that counter wraps.
   */
  lemma {:induction false} TallySumMod(t: seq<u64>, buf: seq<Byte>)
    requires |t| == TABLE_SIZE
    ensures Sum(Tally(t, buf)) % TWO_64 == (Sum(t) + |buf|) % TWO_64
  {
    if buf != [] {
      var init, last := buf[..|buf| - 1], buf[|buf| - 1];
      var before := Tally(t, init);
      TallySumMod(t, init);
      SumUpdate(before, last, (before[last] + 1) % TWO_64);
      if before[last] == TWO_64 - 1 {
        assert Sum(Tally(t, buf)) == Sum(before) + 1 + TWO_64 * -1;
        ModPeriodic(Sum(before) + 1, -1);
      } else {
        assert Sum(Tally(t, buf)) == Sum(before) + 1;
      }
      ModShift(Sum(before), Sum(t) + |init|, 1);
    }
  }

  /** Without overflow the invariant holds exactly: no counter wraps. */
  lemma {:induction false} TallySumExact(t: seq<u64>, buf: seq<Byte>)
    requires |t| == TABLE_SIZE
    requires Sum(t) + |buf| < TWO_64
    ensures Sum(Tally(t, buf)) == Sum(t) + |buf|
  {
    if buf != [] {
      var init, last := buf[..|buf| - 1], buf[|buf| - 1];
      var before := Tally(t, init);
      TallySumExact(t, init);
      EntryAtMostSum(before, last);
      SumUpdate(before, last, before[last] + 1);
    }
  }

  // ---------------------------------------------------------------------
  // Shannon entropy (`shannon_entropy`), with log2 left abstract
  // ---------------------------------------------------------------------

  /**
   * `p * log2(p)` for a symbol seen `c > 0` times out of `n`. With `n == 0`
   * the double `p` is +inf, and so is the product.
   */
  function ShannonTerm(c: u64, n: u64, log2: real -> real): Float
    requires c > 0
  {
    if n == 0 then NonFinite
    else
      var p := c as real / n as real;
      Finite(p * log2(p))
  }

  /** The loop of `shannon_entropy` from the current counter on, with `entropy` = `acc`. */
  function ShannonFrom(t: seq<u64>, n: u64, log2: real -> real, acc: Float): Float
  {
    if t == [] then acc
    else if t[0] == 0 then ShannonFrom(t[1..], n, log2, acc)
    else ShannonFrom(t[1..], n, log2, Minus(acc, ShannonTerm(t[0], n, log2)))
  }

  /** `shannon_entropy(freq_table, symbol_count)`: -sum of p log2 p over the non-zero counters. */
  function Shannon(t: seq<u64>, n: u64, log2: real -> real): Float
  {
    ShannonFrom(t, n, log2, Finite(0.0))
  }

  /**
   * Zero counters are skipped, so log2 is only ever applied to a positive
   * probability: two logarithms that agree on positive reals give the same
   * entropy, whatever they do at 0.
   */
  lemma {:induction false} ShannonUsesLog2OnPositivesOnly(t: seq<u64>, n: u64, f: real -> real, g: real -> real, acc: Float)
    requires forall x: real :: x > 0.0 ==> f(x) == g(x)
    ensures ShannonFrom(t, n, f, acc) == ShannonFrom(t, n, g, acc)
  {
    if t != [] {
      if t[0] != 0 && n != 0 {
        var p := t[0] as real / n as real;
        assert p > 0.0;
        assert ShannonTerm(t[0], n, f) == ShannonTerm(t[0], n, g);
      }
      if t[0] == 0 {
        ShannonUsesLog2OnPositivesOnly(t[1..], n, f, g, acc);
      } else {
        ShannonUsesLog2OnPositivesOnly(t[1..], n, f, g, Minus(acc, ShannonTerm(t[0], n, f)));
      }
    }
  }

  /** An all-zero table has entropy 0.0 (and status SUCCESS), whatever the symbol count. */
  lemma {:induction false} ShannonOfZeros(t: seq<u64>, n: u64, log2: real -> real, acc: Float)
    requires forall i :: 0 <= i < |t| ==> t[i] == 0
    ensures ShannonFrom(t, n, log2, acc) == acc
  {
    if t != [] {
      ShannonOfZeros(t[1..], n, log2, acc);
    }
  }

  lemma {:induction false} ShannonStaysNonFinite(t: seq<u64>, n: u64, log2: real -> real)
    ensures ShannonFrom(t, n, log2, NonFinite) == NonFinite
  {
    if t != [] {
      ShannonStaysNonFinite(t[1..], n, log2);
    }
  }

  /**
   * The entropy is finite exactly when the symbol count is non-zero or the
   * table is all zeros: a counted symbol with `symbol_count == 0` divides by 0.
   */
  lemma {:induction false} ShannonFiniteIff(t: seq<u64>, n: u64, log2: real -> real, a: real)
    ensures ShannonFrom(t, n, log2, Finite(a)).Finite?
        <==> (n != 0 || forall i :: 0 <= i < |t| ==> t[i] == 0)
  {
    if t != [] {
      if t[0] == 0 {
        ShannonFiniteIff(t[1..], n, log2, a);
        assert (forall i :: 0 <= i < |t| ==> t[i] == 0) <==> (forall i :: 0 <= i < |t[1..]| ==> t[1..][i] == 0);
      } else if n == 0 {
        ShannonStaysNonFinite(t[1..], n, log2);
      } else {
        ShannonFiniteIff(t[1..], n, log2, a - ShannonTerm(t[0], n, log2).value);
      }
    }
  }

  /** One repeated byte value: entropy 0.0, given log2(1) == 0. */
  lemma ShannonSingleSymbol(t: seq<u64>, b: Byte, log2: real -> real)
    requires |t| == TABLE_SIZE && t[b] > 0
    requires forall i :: 0 <= i < |t| && i != b ==> t[i] == 0
    requires log2(1.0) == 0.0
    ensures Shannon(t, t[b], log2) == Finite(0.0)
  {
    ShannonSingleFrom(t, b, t[b], log2);
  }

  lemma {:induction false} ShannonSingleFrom(t: seq<u64>, b: int, n: u64, log2: real -> real)
    requires 0 <= b < |t| && t[b] == n > 0
    requires forall i :: 0 <= i < |t| && i != b ==> t[i] == 0
    requires log2(1.0) == 0.0
    ensures ShannonFrom(t, n, log2, Finite(0.0)) == Finite(0.0)
  {
    if b == 0 {
      DivSelf(n as real);
      assert ShannonTerm(t[0], n, log2) == Finite(0.0);
      forall i | 0 <= i < |t[1..]|
        ensures t[1..][i] == 0
      {
        assert t[1..][i] == t[i + 1];
      }
      ShannonOfZeros(t[1..], n, log2, Finite(0.0));
    } else {
      assert t[0] == 0;
      forall i | 0 <= i < |t[1..]| && i != b - 1
        ensures t[1..][i] == 0
      {
        assert t[1..][i] == t[i + 1];
      }
      ShannonSingleFrom(t[1..], b - 1, n, log2);
    }
  }

  /** Every byte value equally often: entropy 8.0, given log2(1/256) == -8. */
  lemma ShannonUniform(t: seq<u64>, c: u64, log2: real -> real)
    requires |t| == TABLE_SIZE && c > 0 && TABLE_SIZE * c < TWO_64
    requires forall i :: 0 <= i < |t| ==> t[i] == c
    requires log2(1.0 / 256.0) == -8.0
    ensures Shannon(t, TABLE_SIZE * c, log2) == Finite(8.0)
  {
    ShannonUniformFrom(t, c, log2, 0.0);
  }

  lemma {:induction false} ShannonUniformFrom(t: seq<u64>, c: u64, log2: real -> real, a: real)
    requires c > 0 && TABLE_SIZE * c < TWO_64
    requires forall i :: 0 <= i < |t| ==> t[i] == c
    requires log2(1.0 / 256.0) == -8.0
    ensures ShannonFrom(t, TABLE_SIZE * c, log2, Finite(a)) == Finite(a + |t| as real / 32.0)
  {
    if t != [] {
      var n: u64 := TABLE_SIZE * c;
      assert c as real / n as real == 1.0 / 256.0;
      assert ShannonTerm(t[0], n, log2) == Finite(-1.0 / 32.0);
      ShannonUniformFrom(t[1..], c, log2, a + 1.0 / 32.0);
    }
  }

  // ---------------------------------------------------------------------
  // Chi-squared statistic (`chisq`)
  // ---------------------------------------------------------------------

  /** `sum += freq_table[i] * freq_table[i]`: a 64-bit product, accumulated in a double. */
  function SquaresSum(t: seq<u64>): (r: real)
    ensures r >= 0.0
  {
    if t == [] then 0.0 else ((t[0] * t[0]) % TWO_64) as real + SquaresSum(t[1..])
  }

  /**
   * `chisq`: `sum / (N / 256) - N`. With `N == 0` the division is 0/0 (NaN)
   * or x/0 (+inf), so the result is never finite; otherwise it always is.
   */
  function ChiSquare(t: seq<u64>, n: u64): (r: Float)
    ensures r.Finite? <==> n != 0
  {
    if n == 0 then NonFinite
    else Finite(SquaresSum(t) / (n as real / 256.0) - n as real)
  }

  /** The observed counts as reals. */
  ghost function Observed(t: seq<int>): (r: seq<real>)
    ensures |r| == |t|
  {
    if t == [] then [] else [t[0] as real] + Observed(t[1..])
  }

  /** The textbook statistic: the sum of (O_i - E)^2 / E. */
  ghost function Pearson(obs: seq<real>, e: real): real
    requires e != 0.0
  {
    if obs == [] then 0.0 else (obs[0] - e) * (obs[0] - e) / e + Pearson(obs[1..], e)
  }

  /** The numerators of Pearson's terms: the sum of (O_i - E)^2. */
  ghost function SquaredDeviations(obs: seq<real>, e: real): real
  {
    if obs == [] then 0.0 else (obs[0] - e) * (obs[0] - e) + SquaredDeviations(obs[1..], e)
  }

  ghost function RealSquares(obs: seq<real>): real
  {
    if obs == [] then 0.0 else obs[0] * obs[0] + RealSquares(obs[1..])
  }

  ghost function RealSum(obs: seq<real>): real
  {
    if obs == [] then 0.0 else obs[0] + RealSum(obs[1..])
  }

  lemma MulAtMost(a: int, b: int, c: int, d: int)
    requires 0 <= a <= b && 0 <= c <= d
    ensures a * c <= b * d
  {
    assert (b - a) * c >= 0;
    assert b * (d - c) >= 0;
  }

  lemma SquareBelow(x: int)
    requires 0 <= x < TWO_32
    ensures x * x < TWO_64
  {
    MulAtMost(x, TWO_32 - 1, x, TWO_32 - 1);
    assert (TWO_32 - 1) * (TWO_32 - 1) < TWO_64;
  }

  /** Below 2^32 no square wraps, so `chisq` sums the true squares. */
  lemma {:induction false} SquaresSumNoWrap(t: seq<u64>)
    requires forall i :: 0 <= i < |t| ==> t[i] < TWO_32
    ensures SquaresSum(t) == RealSquares(Observed(t))
  {
    if t != [] {
      SquareBelow(t[0]);
      assert (t[0] * t[0]) as real == t[0] as real * t[0] as real;
      assert Observed(t)[1..] == Observed(t[1..]);
      SquaresSumNoWrap(t[1..]);
    }
  }

  lemma {:induction false} ObservedSum(t: seq<int>)
    ensures RealSum(Observed(t)) == Sum(t) as real
  {
    if t != [] {
      assert Observed(t)[1..] == Observed(t[1..]);
      ObservedSum(t[1..]);
    }
  }

  lemma DivSelf(x: real)
    requires x != 0.0
    ensures x / x == 1.0
  {
  }

  lemma DivAdd(a: real, b: real, e: real)
    requires e != 0.0
    ensures a / e + b / e == (a + b) / e
  {
  }

  lemma {:induction false} PearsonOverCommonE(obs: seq<real>, e: real)
    requires e != 0.0
    ensures Pearson(obs, e) == SquaredDeviations(obs, e) / e
  {
    if obs != [] {
      PearsonOverCommonE(obs[1..], e);
      DivAdd((obs[0] - e) * (obs[0] - e), SquaredDeviations(obs[1..], e), e);
    }
  }

  lemma {:induction false} DeviationsExpand(obs: seq<real>, e: real)
    ensures SquaredDeviations(obs, e) == RealSquares(obs) - 2.0 * e * RealSum(obs) + |obs| as real * e * e
  {
    if obs != [] {
      var rest := obs[1..];
      DeviationsExpand(rest, e);
      DeviationStep(SquaredDeviations(obs, e), SquaredDeviations(rest, e),
        RealSquares(obs), RealSquares(rest), RealSum(obs), RealSum(rest),
        |obs| as real, |rest| as real, obs[0], e);
    }
  }

  /** The arithmetic of one step of DeviationsExpand, kept apart from the recursion. */
  lemma DeviationStep(d: real, d': real, squares: real, squares': real, sum: real, sum': real,
                      k: real, k': real, o: real, e: real)
    requires d == (o - e) * (o - e) + d'
    requires d' == squares' - 2.0 * e * sum' + k' * e * e
    requires squares == o * o + squares' && sum == o + sum' && k == k' + 1.0
    ensures d == squares - 2.0 * e * sum + k * e * e
  {
  }

  /** With E = N/256 and 256 terms, (R - 2EN + 256E^2)/E is the closed form R/E - N. */
  lemma ClosedForm(squares: real, n: real, e: real)
    requires n > 0.0 && e == n / 256.0
    ensures (squares - 2.0 * e * n + 256.0 * e * e) / e == squares / e - n
  {
    assert 256.0 * e == n;
    assert (256.0 * e * e) / e == n;
    assert (2.0 * e * n) / e == 2.0 * n;
  }

  /**
   * For a non-empty count whose table sums to it, and counters below 2^32 so
   * that no square wraps, the closed form computed by `chisq` is Pearson's
   * statistic with expected count N/256 per byte value.
   */
  lemma ChiSquareIsPearson(t: seq<u64>, n: u64)
    requires |t| == TABLE_SIZE && n > 0 && Sum(t) == n
    requires forall i :: 0 <= i < |t| ==> t[i] < TWO_32
    ensures ChiSquare(t, n) == Finite(Pearson(Observed(t), n as real / 256.0))
  {
    var e := n as real / 256.0;
    var obs := Observed(t);
    SquaresSumNoWrap(t);
    ObservedSum(t);
    PearsonOverCommonE(obs, e);
    DeviationsExpand(obs, e);
    ClosedForm(RealSquares(obs), n as real, e);
  }

  lemma {:induction false} PearsonNonNegative(obs: seq<real>, e: real)
    requires e > 0.0
    ensures Pearson(obs, e) >= 0.0
  {
    if obs != [] {
      var d := obs[0] - e;
      assert d * d >= 0.0;
      PearsonNonNegative(obs[1..], e);
    }
  }

  lemma {:induction false} PearsonOfExpected(obs: seq<real>, e: real)
    requires e > 0.0
    requires forall i :: 0 <= i < |obs| ==> obs[i] == e
    ensures Pearson(obs, e) == 0.0
  {
    if obs != [] {
      PearsonOfExpected(obs[1..], e);
    }
  }

  lemma {:induction false} ObservedConstant(t: seq<int>, c: int)
    requires forall i :: 0 <= i < |t| ==> t[i] == c
    ensures forall i :: 0 <= i < |t| ==> Observed(t)[i] == c as real
  {
    if t != [] {
      assert Observed(t)[1..] == Observed(t[1..]);
      ObservedConstant(t[1..], c);
    }
  }

  /** Under the same conditions the statistic is never negative. */
  lemma ChiSquareNonNegative(t: seq<u64>, n: u64)
    requires |t| == TABLE_SIZE && n > 0 && Sum(t) == n
    requires forall i :: 0 <= i < |t| ==> t[i] < TWO_32
    ensures ChiSquare(t, n).Finite? && ChiSquare(t, n).value >= 0.0
  {
    ChiSquareIsPearson(t, n);
    PearsonNonNegative(Observed(t), n as real / 256.0);
  }

  /** 256 equal non-zero counters give a statistic of exactly 0. */
  lemma ChiSquareOfUniform(t: seq<u64>, c: u64)
    requires |t| == TABLE_SIZE && 0 < c < TWO_32
    requires forall i :: 0 <= i < |t| ==> t[i] == c
    ensures ChiSquare(t, TABLE_SIZE * c) == Finite(0.0)
  {
    SumOfConstant(t, c);
    ChiSquareIsPearson(t, TABLE_SIZE * c);
    assert (TABLE_SIZE * c) as real / 256.0 == c as real;
    ObservedConstant(t, c);
    PearsonOfExpected(Observed(t), c as real);
  }

  /**
   * From 2^32 on, a counter's 64-bit square wraps: 2^32 copies of byte 0 (a
   * consistent table, whose counters sum to the count) give the statistic
   * 0 / (2^32 / 256) - 2^32 = -2^32, where Pearson's statistic is 2^40 - 2^32.
   */
  lemma ChiSquareSquareWraps(t: seq<u64>)
    requires |t| == TABLE_SIZE && t[0] == TWO_32
    requires forall i :: 0 < i < |t| ==> t[i] == 0
    ensures Sum(t) == TWO_32
    ensures ChiSquare(t, TWO_32) == Finite(-(TWO_32 as real))
  {
    var rest := t[1..];
    assert forall i :: 0 <= i < |rest| ==> rest[i] == 0;
    SumOfConstant(rest, 0);
    SquaresSumOfZeros(rest);
    assert (t[0] * t[0]) % TWO_64 == 0;
  }

  lemma {:induction false} SquaresSumOfZeros(t: seq<u64>)
    requires forall i :: 0 <= i < |t| ==> t[i] == 0
    ensures SquaresSum(t) == 0.0
  {
    if t != [] {
      SquaresSumOfZeros(t[1..]);
    }
  }

  lemma {:induction false} SumOfConstant(t: seq<int>, c: int)
    requires forall i :: 0 <= i < |t| ==> t[i] == c
    ensures Sum(t) == |t| * c
  {
    if t != [] {
      SumOfConstant(t[1..], c);
    }
  }

  // ---------------------------------------------------------------------
  // The context (`struct entropy_ctx`)
  // ---------------------------------------------------------------------

  class EntropyCtx {
    /** `ec_freq_table`: one counter per byte value. */
    const table: array<u64>
    /** `ec_symbol_count` */
    var symbolCount: u64
    /** `ec_algo`, an `unsigned long` */
    var algo: u64
    /** `ec_result_float` */
    var resultFloat: Float
    /** `ec_status` */
    var status: int

    ghost predicate Valid()
      reads this
    {
      table.Length == TABLE_SIZE
    }

    /** The invariant callers rely on: the counters add up to the symbol count (mod 2^64). */
    ghost predicate Consistent()
      reads this, table
    {
      Sum(table[..]) % TWO_64 == symbolCount
    }

    /** A context zero-filled with `memset`: Shannon selected, status SUCCESS. */
    constructor ()
      ensures Valid() && fresh(table) && Consistent()
      ensures table[..] == Zeros() && symbolCount == 0
      ensures algo == ALGO_SHANNON && resultFloat == Finite(0.0) && status == STATUS_SUCCESS
    {
      table := new u64[TABLE_SIZE](i => 0);
      symbolCount, algo, resultFloat, status := 0, 0, Finite(0.0), 0;
      new;
      assert table[..] == Zeros();
      SumOfConstant(table[..], 0);
    }

    /** `memset(ctx, 0, sizeof *ctx)` on an existing context. */
    method Reset()
      requires Valid()
      modifies this, table
      ensures Valid() && Consistent()
      ensures table[..] == Zeros() && symbolCount == 0
      ensures algo == ALGO_SHANNON && resultFloat == Finite(0.0) && status == STATUS_SUCCESS
    {
      forall i | 0 <= i < table.Length {
        table[i] := 0;
      }
      symbolCount, algo, resultFloat, status := 0, 0, Finite(0.0), 0;
      assert table[..] == Zeros();
      SumOfConstant(table[..], 0);
    }

    /** `libentropy_update_ctx(ctx, buf, buf_len)` */
    method Update(buf: seq<Byte>)
      requires Valid()
      requires |buf| < TWO_64
      modifies table, this`symbolCount
      ensures table[..] == Tally(old(table[..]), buf)
      ensures symbolCount == (old(symbolCount) + |buf|) % TWO_64
      ensures old(Consistent()) ==> Consistent()
    {
      if |buf| == 0 {
        assert symbolCount + |buf| == symbolCount < TWO_64;
        assert symbolCount % TWO_64 == symbolCount;
        return;
      }
      var i := 0;
      while i < |buf|
        invariant 0 <= i <= |buf|
        invariant table[..] == Tally(old(table[..]), buf[..i])
        invariant symbolCount == old(symbolCount)
      {
        table[buf[i]] := (table[buf[i]] + 1) % TWO_64;
        assert buf[..i + 1][..i] == buf[..i];
        i := i + 1;
      }
      assert buf[..i] == buf;
      symbolCount := (symbolCount + |buf|) % TWO_64;
      TallySumMod(old(table[..]), buf);
      if old(Consistent()) {
        assert old(symbolCount) % TWO_64 == old(symbolCount);
        ModShift(Sum(old(table[..])), old(symbolCount), |buf|);
      }
    }

    /**
     * `libentropy_calculate(ctx)`: Shannon and chi-square write their result
     * and its status; any other selector only sets UNKOWN_ALGO.
     */
    method Calculate(log2: real -> real)
      requires Valid()
      modifies this`resultFloat, this`status
      ensures algo == ALGO_SHANNON ==>
        resultFloat == Shannon(table[..], symbolCount, log2) && status == StatusOf(resultFloat)
      ensures algo == ALGO_CHISQ ==>
        resultFloat == ChiSquare(table[..], symbolCount) && status == StatusOf(resultFloat)
      ensures algo != ALGO_SHANNON && algo != ALGO_CHISQ ==>
        resultFloat == old(resultFloat) && status == STATUS_UNKNOWN_ALGO
    {
      if algo == ALGO_SHANNON {
        resultFloat := Shannon(table[..], symbolCount, log2);
        status := StatusOf(resultFloat);
      } else if algo == ALGO_CHISQ {
        resultFloat := ChiSquare(table[..], symbolCount);
        status := StatusOf(resultFloat);
      } else {
        status := STATUS_UNKNOWN_ALGO;
      }
    }
  }
}
