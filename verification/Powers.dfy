/** Powers of two, for the bounds on the height of trees. */
module Powers {

  function Pow2(n: nat): (p: nat)
    ensures p >= 1
  { if n == 0 then 1 else 2 * Pow2(n - 1) }

  lemma {:induction false} Pow2Monotone(a: nat, b: nat)
    requires a <= b
    ensures Pow2(a) <= Pow2(b)
    decreases b
  {
    if a < b { Pow2Monotone(a, b - 1); }
  }

  lemma {:induction false} Pow2Square(a: nat)
    ensures Pow2(2 * a) == Pow2(a) * Pow2(a)
  {
    if a > 0 {
      Pow2Square(a - 1);
      assert Pow2(2 * a) == 4 * Pow2(2 * (a - 1));
      assert Pow2(a) * Pow2(a) == 4 * (Pow2(a - 1) * Pow2(a - 1));
    }
  }

  lemma TimesMonotone(a: nat, b: nat, x: nat)
    requires a <= b
    ensures a * x <= b * x
  {
    assert b * x == a * x + (b - a) * x;
  }

  lemma SquareMonotone(a: nat, b: nat)
    requires a <= b
    ensures a * a <= b * b
  {
    TimesMonotone(a, b, a);
    TimesMonotone(a, b, b);
  }
}
