/** The few facts about products, quotients and powers of two that the codecs need. */
module Arithmetic {

  function Pow2(n: nat): (p: nat)
    ensures p > 0
  {
    if n == 0 then 1 else 2 * Pow2(n - 1)
  }

  lemma {:induction false} Pow2Add(a: nat, b: nat)
    ensures Pow2(a + b) == Pow2(a) * Pow2(b)
  {
    if a > 0 {
      Pow2Add(a - 1, b);
      MulAssoc(2, Pow2(a - 1), Pow2(b));
    }
  }

  lemma MulAssoc(a: int, b: int, c: int)
    ensures a * b * c == a * (b * c)
  {
  }

  lemma MulDistribute(a: int, b: int, c: int)
    ensures (a + b) * c == a * c + b * c
  {
  }

  lemma MulMonotone(a: int, b: int, c: int)
    requires a <= b && 0 <= c
    ensures a * c <= b * c
  {
  }

  lemma DivMod(v: nat, p: nat)
    requires p > 0
    ensures v == (v / p) * p + v % p && v % p < p
  {
  }

  lemma {:induction false} DivUnique(v: nat, p: nat, q: nat, r: nat)
    requires p > 0 && v == q * p + r && r < p
    ensures v / p == q && v % p == r
  {
    DivMod(v, p);
    if v / p <= q {
      if v / p + 1 <= q {
        MulMonotone(v / p + 1, q, p);
        MulDistribute(v / p, 1, p);
      }
    } else {
      MulMonotone(q + 1, v / p, p);
      MulDistribute(q, 1, p);
    }
  }

  lemma {:induction false} MulBound(a: nat, w: nat, b: nat, p: nat)
    requires a < w && b < p
    ensures a * p + b < w * p
  {
    MulMonotone(a + 1, w, p);
    MulDistribute(a, 1, p);
  }

  /** A number made of a high part, a field of size `w` and a low part of size `p` splits back. */
  lemma {:induction false} SplitField(hi: nat, mid: nat, lo: nat, w: nat, p: nat)
    requires mid < w && lo < p
    ensures hi * w + mid >= 0 && (hi * w + mid) * p + lo >= 0
    ensures var v: nat := (hi * w + mid) * p + lo;
            v / p == hi * w + mid && v % p == lo && v / p / w == hi && v / p % w == mid
  {
    MulMonotone(0, hi, w);
    var q: nat := hi * w + mid;
    MulMonotone(0, q, p);
    DivUnique(q * p + lo, p, q, lo);
    DivUnique(q, w, hi, mid);
  }

  lemma {:induction false} DivDiv(v: nat, p: nat, w: nat)
    requires p > 0 && w > 0
    ensures p * w > 0 && v / p / w == v / (p * w)
  {
    var hi, mid, lo := v / p / w, v / p % w, v % p;
    DivMod(v, p);
    DivMod(v / p, w);
    MulDistribute(hi * w, mid, p);
    MulAssoc(hi, w, p);
    MulBound(mid, w, lo, p);
    MulMonotone(0, mid, p);
    DivUnique(v, w * p, hi, mid * p + lo);
  }
}
