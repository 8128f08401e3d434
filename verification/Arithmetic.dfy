/** The smaller of two numbers, and facts about multiplication and division by a variable. */
module Arithmetic {
  function Min(a: int, b: int): int { if a < b then a else b }

  lemma MulMono(a: int, b: int, n: int)
    requires a <= b && 0 <= n
    ensures a * n <= b * n
  {}

  lemma MulCancel(a: int, b: int, n: int)
    requires a * n <= b * n && 0 < n
    ensures a <= b
  {
    if a > b {
      MulMono(b + 1, a, n);
    }
  }

  lemma QuotientBelow(d: int, n: int, m: int)
    requires 0 < n && 0 <= d < m * n
    ensures 0 <= d / n < m
  {
    if d / n >= m {
      MulMono(m, d / n, n);
    }
  }

  lemma QuotientBelowIff(x: nat, n: nat, m: nat)
    requires 0 < n
    ensures x < m * n <==> x / n < m
  {
    if x < m * n {
      QuotientBelow(x, n, m);
    } else if x / n < m {
      MulMono(x / n + 1, m, n);
    }
  }

  /** Division with remainder has one answer. */
  lemma DivModUnique(d: int, n: int, q: int, r: int)
    requires 0 < n && 0 <= r < n && d == q * n + r
    ensures d / n == q && d % n == r
  {
    var q', r' := d / n, d % n;
    assert d == q' * n + r';
    if q < q' {
      MulMono(q + 1, q', n);
    } else if q' < q {
      MulMono(q' + 1, q, n);
    }
  }

  /** Halving a nibble index that is split by `2 * n` splits the byte index by `n`. */
  lemma HalfIndex(x: nat, n: nat)
    requires n > 0
    ensures x / (n * 2) == x / 2 / n && x % (n * 2) / 2 == x / 2 % n
  {
    var q, r := x / (n * 2), x % (n * 2);
    assert x == 2 * (q * n) + r by {
      assert x == q * (n * 2) + r;
      assert q * (n * 2) == 2 * (q * n);
    }
    assert x / 2 == q * n + r / 2;
    DivModUnique(x / 2, n, q, r / 2);
  }

  /** Doubling a word index that is split by `n / 2` splits the byte index by `n`. */
  lemma DoubleIndex(x: nat, n: nat)
    requires n >= 2 && n % 2 == 0
    ensures x / (n / 2) == x * 2 / n && x % (n / 2) * 2 == x * 2 % n && x * 2 % n + 1 < n
  {
    var h := n / 2;
    var q, r := x / h, x % h;
    assert x == q * h + r;
    assert x * 2 == q * (h * 2) + r * 2;
    DivModUnique(x * 2, n, q, r * 2);
  }

  function Div(x: nat, n: nat): nat
    requires n > 0
  {
    QuotientNat(x, n);
    x / n
  }

  lemma QuotientNat(x: nat, n: nat)
    requires n > 0
    ensures x / n >= 0
  {}

  function Pow2(n: nat): nat { if n == 0 then 1 else 2 * Pow2(n - 1) }

  /** `x << n` and `x >> n` */
  function Shl(x: nat, n: nat): nat
    decreases n
  {
    if n == 0 then x else Shl(2 * x, n - 1)
  }

  function Shr(x: nat, n: nat): nat
    decreases n
  {
    if n == 0 then x else Shr(x / 2, n - 1)
  }

  lemma {:induction false} ShlIs(x: nat, n: nat)
    ensures Shl(x, n) == x * Pow2(n)
    decreases n
  {
    if n > 0 {
      ShlIs(2 * x, n - 1);
      MulAssoc(x, 2, Pow2(n - 1));
    }
  }

  lemma {:induction false} ShrIs(x: nat, n: nat)
    ensures Pow2(n) > 0 && Shr(x, n) == x / Pow2(n)
    decreases n
  {
    if n > 0 {
      ShrIs(x / 2, n - 1);
      var m := Pow2(n - 1);
      HalfIndex(x, m);
    }
  }

  lemma MulAssoc(a: int, b: int, c: int)
    ensures a * b * c == a * (b * c)
  {}
}
