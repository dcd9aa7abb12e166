/** Powers of two, shared by the bit helpers and the van Emde Boas universe sizes. */
module Powers {

  /** 2^b, which the programs write as `1 << b`. */
  function Pow2(b: nat): (p: nat)
    ensures p >= 1
  {
    if b == 0 then 1 else 2 * Pow2(b - 1)
  }

  /** True when x is 2^b for some b, tested by halving. */
  predicate IsPow2(x: nat)
  {
    if x == 0 then false
    else if x == 1 then true
    else x % 2 == 0 && IsPow2(x / 2)
  }

  lemma {:induction false} Pow2IsPow2(b: nat)
    ensures IsPow2(Pow2(b))
  {
    if b > 0 {
      Pow2IsPow2(b - 1);
      assert Pow2(b) / 2 == Pow2(b - 1);
    }
  }

  lemma {:induction false} Pow2Add(a: nat, b: nat)
    ensures Pow2(a + b) == Pow2(a) * Pow2(b)
  {
    if a > 0 {
      Pow2Add(a - 1, b);
      assert Pow2(a + b) == 2 * Pow2(a - 1 + b);
    }
  }

  lemma {:induction false} Pow2Monotone(a: nat, b: nat)
    requires a < b
    ensures Pow2(a) < Pow2(b)
  {
    if a + 1 < b {
      Pow2Monotone(a, b - 1);
    }
  }
}
