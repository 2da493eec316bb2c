/**
 * `alignUp` of the bundled Emscripten runtime, which rounds a heap size up
 * to a multiple of a page or alignment.  JavaScript's `%` truncates toward
 * zero, so the remainder takes the sign of the dividend; a zero modulus
 * yields NaN, and `NaN > 0` is false.
 */
module Align {
  function Abs(m: int): (a: int)
    ensures a >= 0 && (a == m || a == -m)
  {
    if m < 0 then -m else m
  }

  /** JavaScript `x % m` for a non-zero integer modulus: |x| mod |m|, with the sign of x. */
  function JsRem(x: int, m: int): (r: int)
    requires m != 0
    ensures x >= 0 ==> 0 <= r < Abs(m)
    ensures x < 0 ==> -Abs(m) < r <= 0
  {
    if x >= 0 then x % Abs(m) else -((-x) % Abs(m))
  }

  /** `alignUp(x, multiple)`: adds what is missing to the next multiple when the remainder is positive. */
  function AlignUp(x: int, m: int): (r: int)
    ensures 0 < m && 0 <= x ==> x <= r < x + m
    ensures x <= 0 || m == 0 ==> r == x
  {
    if m != 0 && JsRem(x, m) > 0 then x + (m - JsRem(x, m)) else x
  }

  /** A multiple of a positive m leaves no remainder. */
  lemma ModOfMultiple(m: int, k: int)
    requires m > 0
    ensures (m * k) % m == 0
  {
    var z := m * k;
    var j := k - z / m;
    assert z == m * (z / m) + z % m;
    assert z % m == m * j;
    assert j >= 1 ==> m * j >= m;
    assert j <= -1 ==> m * j <= -m;
  }

  /** For a positive multiple and a non-negative size, `alignUp` lands on a multiple. */
  lemma AlignUpIsMultiple(x: int, m: int)
    requires 0 < m && 0 <= x
    ensures AlignUp(x, m) % m == 0
  {
    assert x == m * (x / m) + x % m;
    if x % m > 0 {
      assert AlignUp(x, m) == m * (x / m + 1);
      ModOfMultiple(m, x / m + 1);
    }
  }

  /** For a positive multiple, `alignUp` gives the least multiple not below x. */
  lemma AlignUpLeast(x: int, m: int, y: int)
    requires 0 < m && 0 <= x
    requires y % m == 0 && x <= y
    ensures AlignUp(x, m) <= y
  {
    var r := AlignUp(x, m);
    AlignUpIsMultiple(x, m);
    assert y < r ==> r - y >= m by {
      if y < r {
        MultiplesApart(r, y, m);
      }
    }
  }

  /** Two different multiples of m are at least m apart. */
  lemma MultiplesApart(a: int, b: int, m: int)
    requires 0 < m && a % m == 0 && b % m == 0 && b < a
    ensures a - b >= m
  {
    var j := a / m - b / m;
    assert a == m * (a / m);
    assert b == m * (b / m);
    assert a - b == m * j;
    assert j <= 0 ==> m * j <= 0;
    assert j >= 1 ==> m * j >= m;
  }

  /** Aligning twice is aligning once. */
  lemma AlignUpIdempotent(x: int, m: int)
    ensures AlignUp(AlignUp(x, m), m) == AlignUp(x, m)
  {
    var r := AlignUp(x, m);
    if 0 < m && 0 <= x {
      AlignUpIsMultiple(x, m);
      assert JsRem(r, m) == 0;
    } else if m < 0 && 0 <= x && JsRem(x, m) > 0 {
      var a := -m;
      assert x == a * (x / a) + x % a;
      assert r == a * (x / a - 1);
      if r >= 0 {
        ModOfMultiple(a, x / a - 1);
        assert JsRem(r, m) == 0;
      }
    }
  }
}
