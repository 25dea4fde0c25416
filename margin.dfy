/**
 The arithmetic of one race: the signed number of votes still to be counted,
 the signed gap between the two tracked candidates, and the close-race
 threshold, which the program evaluates in floating point and which is stated
 here exactly over the integers.
 */
module Margin {
  import opened Schema

  const I32_MIN: int := -0x8000_0000
  const I32_MAX: int := 0x7FFF_FFFF

  predicate InI32(x: int) {
    I32_MIN <= x <= I32_MAX
  }

  /** A vote count small enough for `as i32` to keep its value. */
  predicate FitsI32(n: VoteCount) {
    n <= I32_MAX
  }

  function Abs(x: int): (r: nat)
    ensures r == x || r == -x
  {
    if x < 0 then -x else x
  }

  /** The cast `n as i32`: the same 32 bits read as two's complement. */
  function AsI32(n: VoteCount): (r: int)
    ensures InI32(r)
    ensures r % 0x1_0000_0000 == n
    ensures r == n <==> FitsI32(n)
  {
    if n <= I32_MAX then n else n - 0x1_0000_0000
  }

  /**
   `tot_exp_vote as i32 - votes as i32`: for counts that fit an `i32` the
   casts are exact, the difference cannot overflow, and it is negative exactly
   when more votes were counted than expected.
   */
  function Remaining(race: Race): (r: int)
    requires FitsI32(race.votes) && FitsI32(race.totExpVote)
    ensures InI32(r)
    ensures r == race.totExpVote - race.votes
    ensures r < 0 <==> race.votes > race.totExpVote
  {
    AsI32(race.totExpVote) - AsI32(race.votes)
  }

  /**
   `trump.votes as i32 - biden.votes as i32`: exact and without overflow for
   counts that fit an `i32`; positive exactly when `trump` leads.
   */
  function Gap(trump: Candidate, biden: Candidate): (g: int)
    requires FitsI32(trump.votes) && FitsI32(biden.votes)
    ensures InI32(g)
    ensures g == trump.votes - biden.votes
    ensures g > 0 <==> trump.votes > biden.votes
  {
    AsI32(trump.votes) - AsI32(biden.votes)
  }

  /**
   The test `(gap / remaining).abs() < 0.3`, restated over the integers as
   `10 * |gap| < 3 * remaining`. A race with nothing left to count (or a
   negative remainder) is never close, just as the floating-point quotient by
   zero is an infinity or NaN that fails the comparison.
   */
  predicate IsClose(gap: int, remaining: int): (close: bool)
    ensures remaining <= 0 ==> !close
    ensures close ==> Abs(gap) < remaining
  {
    10 * Abs(gap) < 3 * remaining
  }

  /**
   With a positive remainder, the integer test is the real-valued test
   `|gap| / remaining < 3/10`; in particular a ratio of exactly 3/10 is not close.
   */
  lemma CloseIffRatioBelowThreshold(gap: int, remaining: int)
    requires remaining > 0
    ensures IsClose(gap, remaining) <==> (Abs(gap) as real) / (remaining as real) < 0.3
  {
    var a, b := Abs(gap) as real, remaining as real;
    var q := a / b;
    assert q * b == a;
    // 10|gap| - 3 remaining == 10 b (q - 0.3): the two tests share their sign
    if q < 0.3 {
      ProductLess(b, q, 0.3);
      assert 10.0 * a < 3.0 * b;
    } else {
      ProductAtLeast(b, q, 0.3);
      assert 10.0 * a >= 3.0 * b;
    }
  }

  /** Multiplying by a positive factor keeps a strict order. */
  lemma ProductLess(b: real, x: real, y: real)
    requires b > 0.0 && x < y
    ensures x * b < y * b
  {
  }

  /** Multiplying by a positive factor keeps a non-strict order. */
  lemma ProductAtLeast(b: real, x: real, y: real)
    requires b > 0.0 && x >= y
    ensures x * b >= y * b
  {
  }

  /** The smallest distance from 0.3 that a ratio `|gap| / remaining` other than 3/10 can have, once `remaining` fits an `i32`. */
  const MinDistance: real := 1.0 / (10.0 * I32_MAX as real)

  /**
   A ratio `|gap| / remaining` with `0 < remaining <= 2^31 - 1` is either
   exactly 3/10 or at least `MinDistance` (about 4.66e-11) away from it. This
   is the real-number half of why the integer test decides what the program's
   `f64` test decides: `gap` and `remaining` convert to `f64` exactly, the
   division rounds to nearest, and rounding to nearest is monotone. So a ratio
   at most `0.3 - MinDistance` rounds to at most the double nearest that
   value, which lies below the literal `0.3`, and a ratio at least
   `0.3 + MinDistance` rounds to at least the double nearest that value,
   which lies above it. A ratio of exactly 3/10 rounds to the literal `0.3`
   itself, and `0.3 < 0.3` is false, as `IsClose` is.
   */
  lemma RatioAwayFromThreshold(gap: int, remaining: int)
    requires 0 < remaining <= I32_MAX
    requires 10 * Abs(gap) != 3 * remaining
    ensures var q := (Abs(gap) as real) / (remaining as real);
            q - 0.3 >= MinDistance || 0.3 - q >= MinDistance
  {
    var a, b := Abs(gap) as real, remaining as real;
    var q := a / b;
    assert q * b == a;
    var n := 10 * Abs(gap) - 3 * remaining;
    // n is a nonzero integer, so |n| >= 1, and q - 0.3 == n / (10 b)
    var e := if n > 0 then q - 0.3 else 0.3 - q;
    var m := if n > 0 then n else -n;
    assert m >= 1;
    assert (10.0 * b) * e == m as real;
    AtLeastReciprocal(10.0 * b, e, 10.0 * I32_MAX as real);
  }

  /** If `x * e >= 1` with `0 < x <= bound`, then `e >= 1 / bound`. */
  lemma AtLeastReciprocal(x: real, e: real, bound: real)
    requires 0.0 < x <= bound
    requires x * e >= 1.0
    ensures e >= 1.0 / bound
  {
  }
}
