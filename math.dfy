/** Rounding a quantity up to a multiple of an alignment unit (`src/math.rs`). */
module Math {
  import opened Arith

  /**
   * `make_divisible_by`: the least multiple of `divisor` that is not below
   * `value`. The source divides by `divisor`, so it must be positive.
   */
  function MakeDivisibleBy(value: nat, divisor: nat): (r: nat)
    requires divisor > 0
    ensures r % divisor == 0
    ensures value <= r < value + divisor
  {
    var q := value / divisor;
    var k := q + (if value % divisor > 0 then 1 else 0);
    DivModUnique(divisor * k, divisor, k, 0);
    assert divisor * (q + 1) == divisor * q + divisor;
    divisor * k
  }

  /** No multiple of `divisor` lies in `[value, MakeDivisibleBy(value, divisor))`. */
  lemma {:induction false} MakeDivisibleByIsLeast(value: nat, divisor: nat, m: nat)
    requires divisor > 0 && m % divisor == 0 && value <= m
    ensures MakeDivisibleBy(value, divisor) <= m
  {
    var r := MakeDivisibleBy(value, divisor);
    var a, b := r / divisor, m / divisor;
    if a > b {
      MulMonotone(divisor, a - b);
    }
  }

  /** A value that already is a multiple (zero included) is left unchanged. */
  lemma {:induction false} MakeDivisibleByFixesMultiples(value: nat, divisor: nat)
    requires divisor > 0 && value % divisor == 0
    ensures MakeDivisibleBy(value, divisor) == value
  {
    MakeDivisibleByIsLeast(value, divisor, value);
  }

  /** The cases the repository's own tests list for `make_divisible_by`. */
  lemma {:induction false} MakeDivisibleByExamples()
    ensures MakeDivisibleBy(0, 1) == 0 && MakeDivisibleBy(0, 100) == 0
    ensures MakeDivisibleBy(1, 8) == 8 && MakeDivisibleBy(8, 100) == 100
    ensures MakeDivisibleBy(100, 75) == 150 && MakeDivisibleBy(990, 99) == 990
    ensures MakeDivisibleBy(991, 99) == 1089
  {
  }
}
