/** Arithmetic on leading bits: what is left of a number without its lowest bits,
    and the block of a power of two that the number lies in. */
module Bits {
  import opened Powers

  /** `a` with its `k` lowest bits dropped. */
  function Shr(a: nat, k: nat): nat {
    if k == 0 then a else Shr(a / 2, k - 1)
  }

  lemma {:induction false} ShrStep(a: nat, k: nat)
    ensures Shr(a, k + 1) == Shr(a, k) / 2
    decreases k
  {
    if k > 0 {
      ShrStep(a / 2, k - 1);
    }
  }

  /** Numbers that agree above bit `k` agree above every higher bit. */
  lemma {:induction false} ShrAgree(a: nat, b: nat, k: nat, j: nat)
    requires Shr(a, k) == Shr(b, k) && k <= j
    ensures Shr(a, j) == Shr(b, j)
    decreases j
  {
    if k < j {
      ShrAgree(a, b, k, j - 1);
      ShrStep(a, j - 1);
      ShrStep(b, j - 1);
    }
  }

  lemma {:induction false} ShrScaled(a: nat, k: nat)
    ensures Scale(Shr(a, k), k) <= a < Scale(Shr(a, k), k) + Pow2(k)
  {
    if k > 0 {
      ShrScaled(a / 2, k - 1);
    }
  }

  /** An address lies in the block that its leading bits number. */
  lemma ShrBounds(a: nat, k: nat)
    ensures Shr(a, k) * Pow2(k) <= a < Shr(a, k) * Pow2(k) + Pow2(k)
  {
    ShrScaled(a, k);
    ScaleIsProduct(Shr(a, k), k);
  }

  /** The block of size 2^k an address lies in is unique. */
  lemma ShrUnique(a: nat, k: nat, n: nat)
    requires n * Pow2(k) <= a < n * Pow2(k) + Pow2(k)
    ensures Shr(a, k) == n
  {
    ShrBounds(a, k);
    var s, w := Shr(a, k), Pow2(k);
    if s < n {
      assert (s + 1) * w == s * w + w;
      MulMonotone(s + 1, n, w);
    } else if n < s {
      assert (n + 1) * w == n * w + w;
      MulMonotone(n + 1, s, w);
    }
  }

  lemma ModuloOfSum(s: nat, w: nat, r: nat)
    requires r < w
    ensures (s * w + r) % w == r
  {
    var a := s * w + r;
    var q, m := a / w, a % w;
    assert a == q * w + m && 0 <= m < w;
    if q < s {
      assert (q + 1) * w == q * w + w;
      MulMonotone(q + 1, s, w);
    } else if s < q {
      assert (s + 1) * w == s * w + w;
      MulMonotone(s + 1, q, w);
    }
  }

  lemma ScaleFits(s: nat, c: nat, w: nat, a: nat)
    requires s * w <= a < c * w
    ensures s * w + w <= c * w
  {
    if c <= s {
      MulMonotone(c, s, w);
    } else {
      MulMonotone(s + 1, c, w);
    }
  }

  /** The smaller of two aligned blocks holding `a` lies in the larger. */
  lemma BlocksNest(n: nat, k: nat, m: nat, j: nat, a: nat)
    requires j <= k && n == Shr(a, k) && m == Shr(a, j)
    ensures n * Pow2(k) <= m * Pow2(j)
    ensures m * Pow2(j) + Pow2(j) <= n * Pow2(k) + Pow2(k)
  {
    ShrCompose(a, j, k - j);
    ShrBounds(m, k - j);
    Pow2Splits(j, k - j);
    ScaleBounds(n, m, Pow2(k - j), Pow2(j));
  }

  lemma ScaleBounds(n: nat, m: nat, c: nat, w: nat)
    requires n * c <= m < n * c + c
    ensures n * (c * w) <= m * w
    ensures m * w + w <= n * (c * w) + c * w
  {
    assert n * (c * w) == (n * c) * w;
    MulMonotone(n * c, m, w);
    MulMonotone(m + 1, n * c + c, w);
    assert (n * c + c) * w == (n * c) * w + c * w;
  }

  lemma {:induction false} ShrCompose(a: nat, j: nat, i: nat)
    ensures Shr(Shr(a, j), i) == Shr(a, j + i)
    decreases i
  {
    if i > 0 {
      ShrCompose(a, j, i - 1);
      ShrStep(Shr(a, j), i - 1);
      ShrStep(a, j + i - 1);
    }
  }
}
