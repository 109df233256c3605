/** Powers of two and the little multiplication that comes with them. */
module Powers {

  function Pow2(n: nat): (r: nat)
    ensures r > 0
  {
    if n == 0 then 1 else 2 * Pow2(n - 1)
  }

  lemma {:induction false} Pow2Increases(a: nat, b: nat)
    requires a < b
    ensures Pow2(a) < Pow2(b)
    decreases b
  {
    if a < b - 1 {
      Pow2Increases(a, b - 1);
    }
  }

  lemma {:induction false} Pow2Splits(a: nat, b: nat)
    ensures Pow2(a + b) == Pow2(b) * Pow2(a)
    decreases b
  {
    if b > 0 {
      Pow2Splits(a, b - 1);
      var u, v, w := Pow2(b - 1), Pow2(a), Pow2(a + b - 1);
      assert Pow2(a + b) == 2 * w && Pow2(b) == 2 * u;
      MulAssociates(2, u, v);
    }
  }

  lemma MulMonotone(a: nat, b: nat, w: nat)
    requires a <= b
    ensures a * w <= b * w
  {
    assert b * w == a * w + (b - a) * w;
  }

  lemma MulAssociates(x: nat, y: nat, z: nat)
    ensures (x * y) * z == x * (y * z)
  {
  }

  /** n times 2^k, by doubling. */
  function Scale(n: nat, k: nat): nat {
    if k == 0 then n else 2 * Scale(n, k - 1)
  }

  lemma {:induction false} ScaleIsProduct(n: nat, k: nat)
    ensures Scale(n, k) == n * Pow2(k)
  {
    if k > 0 {
      ScaleIsProduct(n, k - 1);
      MulAssociates(n, 2, Pow2(k - 1));
      MulAssociates(2, n, Pow2(k - 1));
    }
  }
}
