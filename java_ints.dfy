/** The parts of Java's fixed-width integer arithmetic that the planner depends on. */
module JavaInts {

  const TWO_31: int := 0x8000_0000
  const TWO_32: int := 0x1_0000_0000

  /** The range of a Java `int`. */
  type Int32 = x: int | -0x8000_0000 <= x < 0x8000_0000

  /** Java's `(int)` narrowing of a wider integer (and `int` addition overflow): keep the low 32 bits. */
  function Wrap32(x: int): (r: Int32)
    ensures (r - x) % TWO_32 == 0
    ensures -TWO_31 <= x < TWO_31 ==> r == x
  {
    (x + TWO_31) % TWO_32 - TWO_31
  }

  /** Adding before or after wrapping gives the same 32-bit value. */
  lemma {:induction false} Wrap32Add(a: int, b: int)
    ensures Wrap32(Wrap32(a) + b) == Wrap32(a + b)
  {
    var k := (Wrap32(a) - a) / TWO_32;
    assert Wrap32(a) == a + k * TWO_32;
    ModShift(a + b + TWO_31, k);
  }

  lemma ModShift(x: int, k: int)
    ensures (x + k * TWO_32) % TWO_32 == x % TWO_32
  {
  }

  lemma MulAtLeast(d: int, q: int)
    requires d >= 1 && q >= 0
    ensures d * q >= q
  {
    assert d * q == (d - 1) * q + q;
    assert (d - 1) * q >= 0;
  }

  lemma DivBounds(n: nat, d: int)
    requires d > 0
    ensures 0 <= n / d <= n
  {
    var q, r := n / d, n % d;
    assert n == d * q + r;
    assert q >= 0;
    MulAtLeast(d, q);
  }

  function Abs(x: int): nat
  {
    if x < 0 then -x else x
  }

  /**
   * Java's `/` on integers: the quotient is truncated toward zero, so the
   * remainder `a - q * b` is smaller than the divisor in magnitude and is
   * either zero or of the dividend's sign (JLS section 15.17.2).
   */
  function TruncDiv(a: int, b: int): (q: int)
    requires b != 0
    ensures Abs(a - q * b) < Abs(b)
    ensures a - q * b == 0 || (a - q * b < 0 <==> a < 0)
    ensures a >= 0 && b > 0 ==> q == a / b
    ensures (a >= 0 && b > 0) || (a <= 0 && b < 0) ==> q >= 0
    ensures b > 0 ==> (if a < 0 then a <= q <= 0 else 0 <= q <= a)
  {
    var n, d := Abs(a), Abs(b);
    assert 0 <= n / d <= n by { DivBounds(n, d); }
    var q := if (a < 0) != (b < 0) then -(n / d) else n / d;
    TruncRemainder(a, b, n, d, q);
    q
  }

  /** The remainder of the truncated quotient is the dividend's sign times the remainder of the magnitudes. */
  lemma TruncRemainder(a: int, b: int, n: nat, d: nat, q: int)
    requires b != 0 && n == Abs(a) && d == Abs(b)
    requires q == if (a < 0) != (b < 0) then -(n / d) else n / d
    ensures a - q * b == (if a < 0 then -(n % d) else n % d)
  {
    assert n == d * (n / d) + n % d;
    if a < 0 && b < 0 {
      assert q * b == -(d * (n / d));
    } else if a < 0 {
      assert q * b == -(d * (n / d));
    } else if b < 0 {
      assert q * b == d * (n / d);
    } else {
      assert q * b == d * (n / d);
    }
  }
}
