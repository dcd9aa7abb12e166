/**
 * The integer helpers of Ruby/utils.rb: the number of bits needed to write a
 * non-negative integer, and rounding up to a power of two.
 */
module BitUtils {
  import opened Powers
  import opened Wrappers

  /**
   * get_bit_length: 0 needs no bit, otherwise one bit more than n >> 1.
   * The recursion only stops for n >= 0 (in Ruby, -1 >> 1 is -1), hence `nat`.
   */
  function BitLength(n: nat): (b: nat)
    ensures b == 0 <==> n == 0
    ensures n > 0 ==> Pow2(b - 1) <= n < Pow2(b)
  {
    if n == 0 then 0 else 1 + BitLength(n / 2)
  }

  /** Ruby's `a & b` on non-negative integers, one bit at a time from the lowest. */
  function BitAnd(a: nat, b: nat): (r: nat)
    ensures r <= a && r <= b
  {
    if a == 0 || b == 0 then 0
    else 2 * BitAnd(a / 2, b / 2) + (if a % 2 == 1 && b % 2 == 1 then 1 else 0)
  }

  lemma {:induction false} BitAndSelf(a: nat)
    ensures BitAnd(a, a) == a
  {
    if a > 0 {
      BitAndSelf(a / 2);
    }
  }

  /** The power-of-two test of nearest_pow_2: for n >= 1, n & (n - 1) is zero exactly when n is a power of two. */
  lemma {:induction false} PowerOfTwoTest(n: nat)
    requires n >= 1
    ensures BitAnd(n, n - 1) == 0 <==> IsPow2(n)
  {
    if n == 1 {
    } else if n % 2 == 0 {
      PowerOfTwoTest(n / 2);
      assert (n - 1) / 2 == n / 2 - 1;
      assert BitAnd(n, n - 1) == 2 * BitAnd(n / 2, n / 2 - 1);
    } else {
      BitAndSelf(n / 2);
      assert (n - 1) / 2 == n / 2;
      assert BitAnd(n, n - 1) == 2 * (n / 2);
    }
  }

  /** A power of two that is strictly below 2^b but not below 2^(b-1) is 2^(b-1). */
  lemma {:induction false} PowerBetween(p: nat, b: nat)
    requires b >= 1 && IsPow2(p) && Pow2(b - 1) <= p < Pow2(b)
    ensures p == Pow2(b - 1)
  {
    if b > 1 {
      assert p >= 2;
      PowerBetween(p / 2, b - 1);
    }
  }

  /**
   * nearest_pow_2, as its comments describe it: n itself when n & (n - 1) is zero
   * (n is 0 or a power of two), otherwise 1 << get_bit_length(n).
   */
  function NearestPow2(n: nat): (r: nat)
    ensures n == 0 ==> r == 0
    ensures n > 0 ==> IsPow2(r) && n <= r && r < 2 * n
    ensures n > 0 && !IsPow2(n) ==> n < r
    ensures IsPow2(n) ==> r == n
  {
    // n & (n - 1) is 0 & -1 == 0 when n is 0
    var masked := if n == 0 then 0 else BitAnd(n, n - 1);
    assert n > 0 ==> (masked == 0 <==> IsPow2(n)) by {
      if n > 0 { PowerOfTwoTest(n); }
    }
    if masked == 0 then n
    else
      var b := BitLength(n);
      Pow2IsPow2(b);
      assert n != Pow2(b - 1) by {
        if n == Pow2(b - 1) { Pow2IsPow2(b - 1); }
      }
      Pow2(b)
  }

  /** The error Ruby raises when a method does not exist on the receiver. */
  datatype RubyError = NoMethodError(methodName: string)

  /**
   * nearest_pow_2 as written: `(n & (n - 1)).zero` calls `zero`, which Integer
   * does not define (the predicate is `zero?`), so every call raises.
   */
  function NearestPow2AsWritten(n: nat): (r: Result<nat, RubyError>)
    ensures r.Failure?
  {
    Failure(NoMethodError("zero"))
  }

  /** The call the comments promise (here nearest_pow_2(5) == 8) raises instead of returning. */
  lemma NearestPow2AsWrittenRaises()
    ensures NearestPow2(5) == 8
    ensures NearestPow2AsWritten(5) != Success(NearestPow2(5))
  {
    assert BitAnd(5, 4) == 4;
    assert BitLength(5) == 3;
  }
}
