/** Facts about products and quotients that the storage and mesh modules share. */
module Arithmetic {

  lemma {:induction false} MulLe(a: nat, b: nat, c: nat)
    ensures a <= b ==> a * c <= b * c
    ensures a < b ==> a * c + c <= b * c
    decreases b
  {
    if a < b {
      MulLe(a, b - 1, c);
      assert b * c == (b - 1) * c + c;
    }
  }

  lemma {:induction false} MulMono(a: int, b: int, c: int)
    requires a <= b && c >= 0
    ensures a * c <= b * c
  {
  }

  lemma {:induction false} Distribute(x: int, y: int, m: int)
    ensures (x + y) * m == x * m + y * m
  {
  }

  lemma {:induction false} MulGap(a: int, b: int, m: int)
    requires m >= 0
    ensures a < b ==> a * m + m <= b * m
  {
    if a < b {
      MulMono(a + 1, b, m);
      Distribute(a, 1, m);
    }
  }

  /** A number has one quotient and one remainder. */
  lemma {:induction false} DigitsUnique(q: int, r: int, q': int, r': int, m: int)
    requires 0 <= r < m && 0 <= r' < m && q * m + r == q' * m + r'
    ensures q == q' && r == r'
  {
    MulGap(q, q', m);
    MulGap(q', q, m);
  }

  lemma {:induction false} QuotientUnique(x: int, m: int, q: int, r: int)
    requires m > 0 && 0 <= r < m && x == q * m + r
    ensures x / m == q && x % m == r
  {
    DigitsUnique(x / m, x % m, q, r, m);
  }

  lemma {:induction false} QuotientStep(k: int, m: int)
    requires m > 0
    ensures (k - m) / m == k / m - 1 && (k - m) % m == k % m
  {
    Distribute(k / m, -1, m);
    QuotientUnique(k - m, m, k / m - 1, k % m);
  }

  lemma {:induction false} Digits(x: nat, q: nat, m: nat) returns (h: nat, r: nat)
    requires x < q * m
    ensures h < q && r < m && x == h * m + r
  {
    assert m > 0;
    h, r := x / m, x % m;
    MulLe(q, h, m);
  }
}
