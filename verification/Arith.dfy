/** Machine widths, and facts about products, quotients and remainders. */
module Arith {

  const P32: nat := 0x1_0000_0000
  const P48: nat := 0x1_0000_0000_0000
  const P64: nat := 0x1_0000_0000_0000_0000

  lemma MulLe(k: nat, a: nat, b: nat)
    requires a <= b
    ensures k * a <= k * b
  {
  }

  lemma MulLt(a: nat, b: nat, c: nat)
    requires a < b
    ensures a * c + c <= b * c
  {
    assert b * c == a * c + (b - a) * c;
    MulLe(c, 1, b - a);
  }

  lemma MulCancel(a: nat, b: nat, c: nat)
    requires a * c < b * c
    ensures a < b
  {
    if b <= a { MulLe(c, b, a); }
  }

  lemma MulAtLeast(k: int, m: nat)
    requires k >= 1
    ensures k * m >= m
  {
    assert k * m == m + (k - 1) * m;
  }

  lemma DivMod(x: int, y: nat)
    requires y > 0
    ensures x == x / y * y + x % y
  {
  }

  // Quotient and remainder are unique, also for a negative dividend.
  lemma DivModUnique(x: int, q: int, r: int, y: nat)
    requires 0 <= r < y && x == q * y + r
    ensures x / y == q && x % y == r
  {
    var p := x / y;
    assert x == p * y + x % y;
    assert (p - q) * y == r - x % y;
    if p > q {
      MulAtLeast(p - q, y);
    } else if p < q {
      assert (q - p) * y == x % y - r;
      MulAtLeast(q - p, y);
    }
  }

  lemma ModSmall(x: int, m: nat)
    requires m > 0
    ensures 0 <= x < m ==> x % m == x
    ensures 0 - m <= x < 0 ==> x % m == x + m
    ensures m <= x < m + m ==> x % m == x - m
  {
    if 0 - m <= x < 0 { DivModUnique(x, -1, x + m, m); }
    else if m <= x < m + m { DivModUnique(x, 1, x - m, m); }
  }
}
