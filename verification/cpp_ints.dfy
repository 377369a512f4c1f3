/** C++ integer arithmetic where it differs from Dafny's. */
module CppInts {

  /** `a / b`: truncation toward zero. */
  function TruncDiv(a: int, b: int): int
    requires 0 < b
  {
    if 0 <= a then a / b else -((-a) / b)
  }

  /** `a % b`: the sign of `a`. */
  function TruncRem(a: int, b: int): (r: int)
    requires 0 < b
    ensures a == TruncDiv(a, b) * b + r
    ensures -b < r < b && (0 <= a ==> 0 <= r) && (a <= 0 ==> r <= 0)
  {
    if 0 <= a then a % b else -((-a) % b)
  }

  /** Conversion to a 32-bit `int`. */
  function ToInt32(x: int): (y: int)
    ensures -0x8000_0000 <= y < 0x8000_0000 && (y - x) % 0x1_0000_0000 == 0
    ensures -0x8000_0000 <= x < 0x8000_0000 ==> y == x
  {
    (x + 0x8000_0000) % 0x1_0000_0000 - 0x8000_0000
  }

  /** A quotient and a remainder in range determine a division. */
  lemma DivMod(x: int, q: int, r: int, m: int)
    requires 0 <= r < m && x == q * m + r
    ensures x / m == q && x % m == r
  {
    var d := x / m - q;
    assert d * m == r - x % m;
    assert (d >= 1 ==> d * m >= m) && (d <= -1 ==> d * m <= -m);
  }

  lemma AddModulo(x: nat, step: nat, m: nat)
    requires step < m
    ensures (x + step) % m == if x % m + step < m then x % m + step else x % m + step - m
  {
    var q, r := x / m, x % m;
    if r + step < m {
      DivMod(x + step, q, r + step, m);
    } else {
      DivMod(x + step, q + 1, r + step - m, m);
    }
  }
}
