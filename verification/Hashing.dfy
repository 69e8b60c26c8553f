/** The accumulator both hash tables use. */
module Hashing {
  import opened Arith

  // Two bits at a time; `unsigned` arithmetic wraps at 32 bits.
  function HashFrom(val: nat, acc: nat): nat
    decreases val
  {
    if val == 0 then acc else HashFrom(val / 4, (acc * 3 + val % 4) % P32)
  }

  // The same polynomial with no wrap-around anywhere.
  function Horner(key: nat, acc: nat): nat
    decreases key
  {
    if key == 0 then acc else Horner(key / 4, acc * 3 + key % 4)
  }

  lemma ModMultiple(x: int, k: int, m: nat)
    requires m > 0
    ensures (x + k * m) % m == x % m
  {
    DivMod(x, m);
    assert x + k * m == (x / m + k) * m + x % m;
    DivModUnique(x + k * m, x / m + k, x % m, m);
  }

  lemma WrapMod(x: nat, m: nat, q: nat)
    requires m > 0 && P32 == q * m
    ensures x % P32 % m == x % m
  {
    DivMod(x, P32);
    assert x / P32 * (q * m) == (x / P32 * q) * m;
    ModMultiple(x % P32, x / P32 * q, m);
  }

  lemma StepMod(a: nat, b: nat, d: nat, m: nat)
    requires m > 0 && a % m == b % m
    ensures (a * 3 + d) % m == (b * 3 + d) % m
  {
    DivMod(a, m);
    DivMod(b, m);
    var k := 3 * (a / m - b / m);
    assert a * 3 + d == b * 3 + d + k * m;
    ModMultiple(b * 3 + d, k, m);
  }

  // Its remainder by a divisor of 2^32 is not affected by the wrap-around.
  lemma {:induction false} HashMod(key: nat, a: nat, b: nat, m: nat, q: nat)
    requires m > 0 && P32 == q * m && a % m == b % m
    ensures HashFrom(key, a) % m == Horner(key, b) % m
    decreases key
  {
    if key != 0 {
      var d := key % 4;
      WrapMod(a * 3 + d, m, q);
      StepMod(a, b, d, m);
      HashMod(key / 4, (a * 3 + d) % P32, b * 3 + d, m, q);
    }
  }
}
