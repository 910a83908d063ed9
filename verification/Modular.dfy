/** Facts about quotients and remainders. */
module Modular {

  lemma MulAtLeast(b: nat, d: int)
    requires b > 0
    ensures d >= 1 ==> b * d >= b
    ensures d <= -1 ==> b * d <= 0 - b
  {
    if d >= 1 { assert b * d == b + b * (d - 1); }
    if d <= -1 { assert b * d == 0 - b - b * (-1 - d); }
  }

  lemma DivModUnique(a: int, b: nat, q: int, r: int)
    requires b > 0 && a == b * q + r && 0 <= r < b
    ensures a / b == q && a % b == r
  {
    var d := q - a / b;
    assert b * d == b * q - b * (a / b);
    MulAtLeast(b, d);
  }

  lemma ModAdd(r: int, size: nat)
    requires size > 0
    ensures (r + size) % size == r % size
  {
    assert r + size == size * (r / size + 1) + r % size;
    DivModUnique(r + size, size, r / size + 1, r % size);
  }

  /** The remainder of a sum, when the second summand is less than the divisor. */
  lemma ModStep(i: int, d: nat, size: nat)
    requires 0 < size && d < size
    ensures (i + d) % size == if i % size + d < size then i % size + d else i % size + d - size
  {
    var q, r := i / size, i % size;
    assert i == size * q + r;
    if r + d < size {
      DivModUnique(i + d, size, q, r + d);
    } else {
      assert i + d == size * (q + 1) + (r + d - size);
      DivModUnique(i + d, size, q + 1, r + d - size);
    }
  }
}
