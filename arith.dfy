/** Integer facts shared by the proofs about offsets, lengths and chunk sizes. */
module Arith {

  function Min(a: int, b: int): int {
    if a <= b then a else b
  }

  /**
   * `a * b` as repeated addition. Offsets into packed rows are stated with it:
   * the solver unfolds it one row at a time (`Mul(a, b) == Mul(a - 1, b) + b`),
   * which keeps those proofs linear; `MulIsProduct` connects it to `*`.
   */
  function Mul(a: nat, b: nat): nat {
    if a == 0 then 0 else Mul(a - 1, b) + b
  }

  /** The product `a * b`, computed. */
  method Times(a: nat, b: nat) returns (p: nat)
    ensures p == Mul(a, b)
  {
    p := a * b;
    MulIsProduct(a, b);
  }

  lemma {:induction false} MulIsProduct(a: nat, b: nat)
    ensures Mul(a, b) == a * b
    decreases a
  {
    if a > 0 {
      MulIsProduct(a - 1, b);
      MulSuccessor(a - 1, b);
    }
  }

  /** A product of three, regrouped as repeated additions. */
  lemma {:induction false} ProductOfThree(a: nat, b: nat, c: nat)
    ensures a * b * c == Mul(b, Mul(a, c))
  {
    assert Mul(b, Mul(a, c)) == b * (a * c) by {
      MulIsProduct(a, c);
      MulIsProduct(b, a * c);
    }
    assert a * b * c == b * (a * c);
  }

  lemma {:induction false} MulCommutes(a: nat, b: nat)
    ensures Mul(a, b) == Mul(b, a)
  {
    MulIsProduct(a, b);
    MulIsProduct(b, a);
  }

  lemma {:induction false} ProductSwap(a: nat, b: nat)
    ensures a * b == Mul(b, a)
  {
    MulIsProduct(b, a);
  }

  lemma {:induction false} MulMonoLeft(a: nat, a': nat, b: nat)
    requires a <= a'
    ensures Mul(a, b) <= Mul(a', b)
    decreases a'
  {
    if a < a' {
      MulMonoLeft(a, a' - 1, b);
    }
  }

  /** Repeated additions of `k` add up: `a*k + b*k == (a + b)*k`. */
  lemma {:induction false} MulAdd(a: nat, b: nat, k: nat)
    ensures Mul(a, k) + Mul(b, k) == Mul(a + b, k)
    decreases a
  {
    if a > 0 {
      MulAdd(a - 1, b, k);
    }
  }

  /** A positive factor can be cancelled. */
  lemma {:induction false} MulCancel(a: nat, b: nat, k: nat)
    requires k > 0 && Mul(a, k) == Mul(b, k)
    ensures a == b
  {
    if a < b {
      MulMonoLeft(a + 1, b, k);
    } else if b < a {
      MulMonoLeft(b + 1, a, k);
    }
  }

  lemma {:induction false} MulMonoRight(a: nat, b: nat, b': nat)
    requires b <= b'
    ensures Mul(a, b) <= Mul(a, b')
    decreases a
  {
    if a > 0 {
      MulMonoRight(a - 1, b, b');
    }
  }

  lemma {:induction false} MulSuccessor(k: int, n: int)
    ensures (k + 1) * n == k * n + n
  {
  }

  lemma {:induction false} MulMonotone(d: nat, x: int)
    requires x >= 1
    ensures d * x >= d
  {
    assert d * x == d + d * (x - 1);
  }

  lemma {:induction false} MulLeft(a: int, b: int, c: nat)
    requires a <= b
    ensures a * c <= b * c
  {
    assert b * c == a * c + (b - a) * c;
  }

  /** Euclidean division has exactly one quotient and remainder. */
  lemma {:induction false} DivModUnique(n: int, d: nat, q: int, r: int)
    requires d > 0 && 0 <= r < d && n == d * q + r
    ensures n / d == q && n % d == r
  {
    var q', r' := n / d, n % d;
    assert d * q' + r' == d * q + r;
    if q' > q {
      MulMonotone(d, q' - q);
    } else if q' < q {
      MulMonotone(d, q - q');
    }
  }

  /** A positive multiple of `d` holds at least one `d`. */
  lemma {:induction false} QuotientPositive(m: nat, d: nat)
    requires d > 0 && m > 0 && m % d == 0
    ensures m / d >= 1
  {
  }

  /** A multiple of `d` is `d` times its quotient. */
  lemma {:induction false} MultipleQuotient(m: nat, d: nat)
    requires d > 0 && m % d == 0
    ensures Mul(d, m / d) == m
  {
    MulIsProduct(d, m / d);
    assert m == d * (m / d) + m % d;
  }

  /** Adding one divisor to the dividend adds one to the quotient. */
  lemma {:induction false} DivAddDivisor(a: nat, d: nat)
    requires d > 0
    ensures (a + d) / d == a / d + 1 && (a + d) % d == a % d
  {
    assert d * (a / d + 1) == d * (a / d) + d;
    DivModUnique(a + d, d, a / d + 1, a % d);
  }

  /** Dividing a multiple of eight groups by eight. */
  lemma {:induction false} ScaleDownByEight(q: nat, k: nat)
    ensures Mul(q, 8 * k) / 8 == Mul(q, k)
  {
    MulIsProduct(q, 8 * k);
    MulIsProduct(q, k);
    assert q * (8 * k) == 8 * (q * k);
    DivModUnique(q * (8 * k), 8, q * k, 0);
  }

  lemma {:induction false} ProductPositive(q: nat, k: nat)
    requires q >= 1 && k >= 1
    ensures q * k >= 1
  {
    MulMonotone(k, q);
  }

  /** Rounding a multiple of eight up to whole bytes leaves it unchanged. */
  lemma {:induction false} CeilOfMultiple(v: nat)
    requires v % 8 == 0
    ensures (v + 7) / 8 * 8 == v
  {
    DivModUnique(v + 7, 8, v / 8, 7);
  }

  lemma {:induction false} MulScale(q: nat, k: nat, c: nat)
    ensures Mul(q, k) * c == Mul(q, k * c)
  {
    MulIsProduct(q, k);
    MulIsProduct(q, k * c);
    assert q * k * c == q * (k * c);
  }

  lemma {:induction false} MulRegroup(q: nat, d: nat, b: nat)
    ensures Mul(q, Mul(d, b)) == Mul(Mul(d, q), b)
  {
    MulIsProduct(d, b);
    MulIsProduct(q, d * b);
    MulIsProduct(d, q);
    MulIsProduct(d * q, b);
    assert q * (d * b) == (d * q) * b;
  }

  /** `q` groups of `d` items of `b` bits, each group a whole number of bytes. */
  lemma {:induction false} WholeBytes(q: nat, d: nat, b: nat)
    requires Mul(d, b) % 8 == 0
    ensures Mul(q, (Mul(d, b) + 7) / 8) * 8 == Mul(Mul(d, q), b)
  {
    var v := Mul(d, b);
    CeilOfMultiple(v);
    MulScale(q, (v + 7) / 8, 8);
    MulRegroup(q, d, b);
  }

  /**
   * `ceil(total / len)` pieces of `len` items, the last holding the
   * remainder (or a full `len`), add up to `total`.
   */
  lemma {:induction false} CeilSplit(total: nat, len: nat)
    requires len > 0
    ensures total == 0 <==> (total + len - 1) / len == 0
    ensures total > 0 ==>
      var last := if total % len > 0 then total % len else len;
      ((total + len - 1) / len - 1) * len + last == total
  {
    var q, r := total / len, total % len;
    assert total == len * q + r;
    MulSuccessor(q, len);
    if total == 0 {
      DivModUnique(len - 1, len, 0, len - 1);
    } else if r > 0 {
      DivModUnique(total + len - 1, len, q + 1, r - 1);
    } else {
      DivModUnique(total + len - 1, len, q, len - 1);
      MulSuccessor(q - 1, len);
    }
  }

  /** A multiple of a multiple of eight is a multiple of eight. */
  lemma {:induction false} MultipleOfEight(w: nat, b: nat)
    requires b % 8 == 0
    ensures Mul(w, b) % 8 == 0
  {
    MulIsProduct(w, b);
    assert w * b == 8 * (w * (b / 8));
    DivModUnique(w * b, 8, w * (b / 8), 0);
  }

  /** `ceil(h * l / (c * l)) == ceil(h / c)`: scaling both sides by `l` keeps the count. */
  lemma {:induction false} CeilOfScaled(h: nat, c: nat, l: nat)
    requires c >= 1 && l >= 1
    ensures c * l >= 1
    ensures (h * l + c * l - 1) / (c * l) == (h + c - 1) / c
  {
    ProductPositive(c, l);
    var q, r := h / c, h % c;
    assert h * l == (c * l) * q + r * l by {
      assert h == c * q + r;
      assert (c * q + r) * l == (c * l) * q + r * l;
    }
    if r > 0 {
      MulLeft(r, c - 1, l);
      assert (c - 1) * l == c * l - l;
      MulMonotone(l, r);
      assert r * l >= 1 by { assert l * r == r * l; }
      DivModUnique(h * l + c * l - 1, c * l, q + 1, r * l - 1);
      DivModUnique(h + c - 1, c, q + 1, r - 1);
    } else {
      DivModUnique(h * l + c * l - 1, c * l, q, c * l - 1);
      DivModUnique(h + c - 1, c, q, c - 1);
    }
  }

  /** Sum of a sequence of counts. */
  function Sum(xs: seq<nat>): nat {
    if |xs| == 0 then 0 else xs[0] + Sum(xs[1..])
  }

  /** Counts equal to `v` but for the last, which is `last`, add up to `(n - 1) * v + last`. */
  lemma {:induction false} SumUniform(xs: seq<nat>, v: nat, last: nat)
    requires |xs| > 0
    requires forall k | 0 <= k < |xs| - 1 :: xs[k] == v
    requires xs[|xs| - 1] == last
    ensures Sum(xs) == (|xs| - 1) * v + last
  {
    if |xs| > 1 {
      SumUniform(xs[1..], v, last);
      MulSuccessor(|xs| - 2, v);
    }
  }
}

