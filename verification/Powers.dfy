/**
 Powers of natural numbers, and of two.
 */
module Powers {
  function Pow(b: nat, e: nat): (r: nat)
    ensures b > 0 ==> r > 0
  {
    if e == 0 then 1
    else
      PowerPositive(b, Pow(b, e - 1));
      b * Pow(b, e - 1)
  }

  lemma PowerPositive(b: nat, r: nat)
    ensures b > 0 && r > 0 ==> b * r > 0
    ensures b * r >= 0
  {
  }

  function Pow2(i: nat): (r: nat)
    ensures r > 0
  {
    if i == 0 then 1 else 2 * Pow2(i - 1)
  }

  lemma {:induction false} PowAdd(b: nat, m: nat, n: nat)
    ensures Pow(b, m + n) == Pow(b, m) * Pow(b, n)
  {
    if n > 0 {
      PowAdd(b, m, n - 1);
      Swap3(Pow(b, m), b, Pow(b, n - 1));
    }
  }

  lemma Swap3(x: nat, y: nat, z: nat)
    ensures x * (y * z) == y * (x * z)
  {
    assert x * (y * z) == (x * y) * z == (y * x) * z;
  }
}
