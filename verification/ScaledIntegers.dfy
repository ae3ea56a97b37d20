/** 64-bit integers and the powers of ten that shift fixed-point numbers. */
module ScaledIntegers {

  const INT64_MAX := 0x7FFF_FFFF_FFFF_FFFF
  const INT64_MIN := -0x8000_0000_0000_0000

  type int64 = x: int | INT64_MIN <= x <= INT64_MAX

  predicate Int32(x: int)
  {
    -0x8000_0000 <= x <= 0x7FFF_FFFF
  }

  predicate Int64(x: int)
  {
    INT64_MIN <= x <= INT64_MAX
  }

  /** Two's complement: the low 64 bits. */
  function I64(x: int): int64
  {
    if INT64_MIN <= x <= INT64_MAX then x
    else (x - INT64_MIN) % 0x1_0000_0000_0000_0000 + INT64_MIN
  }

  /** Two's complement: the low 32 bits. */
  function I32(x: int): (r: int)
    ensures Int32(r)
  {
    (x + 0x8000_0000) % 0x1_0000_0000 - 0x8000_0000
  }

  function Pow10(n: nat): (r: nat)
    ensures r >= 1
  {
    if n == 0 then 1 else 10 * Pow10(n - 1)
  }

  function Abs(x: int): nat
  {
    if x < 0 then -x else x
  }

  /** Integer division of non-negative numbers. */
  function Quotient(v: nat, sep: nat): (q: nat)
    requires sep > 0
    ensures v == sep * q + v % sep
  {
    v / sep
  }

  lemma {:induction false} Pow10Grows(m: nat, n: nat)
    requires m <= n
    ensures Pow10(m) <= Pow10(n) && Pow10(n) == Pow10(m) * Pow10(n - m)
  {
    if m < n {
      Pow10Grows(m, n - 1);
    }
  }

  lemma Pow10OfOne()
    ensures Pow10(1) == 10
  {
  }

  lemma Pow10Of18()
    ensures Pow10(18) == 1_000_000_000_000_000_000
  {
    assert Pow10(6) == 1_000_000;
    Pow10Grows(6, 12);
    Pow10Grows(12, 18);
  }

  // ----- wrapping

  const TURN := 0x1_0000_0000_0000_0000

  lemma I64Is(x: int, turns: int, w: int64)
    requires x == w + turns * TURN
    ensures I64(x) == w
  {
    var y := x - INT64_MIN;
    assert (y / TURN - turns) * TURN == (w - INT64_MIN) - y % TURN;
  }

  /** Wrapping before or after an addition and a multiplication is the same. */
  lemma I64Linear(a: int, b: int, d: int)
    ensures I64(I64(a) * b + d) == I64(a * b + d)
  {
    var x, y := a - INT64_MIN, a * b + d - INT64_MIN;
    var turns := if Int64(a) then 0 else x / TURN;
    assert a == I64(a) + turns * TURN;
    var z := I64(a) * b + d;
    Expand(I64(a), turns, b, d);
    var more := if Int64(z) then 0 else (z - INT64_MIN) / TURN;
    assert z == I64(z) + more * TURN;
    assert a * b + d == I64(z) + (more + turns * b) * TURN;
    I64Is(a * b + d, more + turns * b, I64(z));
  }

  lemma Expand(w: int, turns: int, b: int, d: int)
    ensures (w + turns * TURN) * b + d == (w * b + d) + turns * b * TURN
  {
  }

  lemma I32Is(x: int, turns: int, w: int)
    requires x == w + turns * 0x1_0000_0000 && Int32(w)
    ensures I32(x) == w
  {
    var y := x + 0x8000_0000;
    assert (y / 0x1_0000_0000 - turns) * 0x1_0000_0000 == (w + 0x8000_0000) - y % 0x1_0000_0000;
  }

  /** The ranges of the machine types. */
  lemma Ranges(x: int)
    ensures Int32(x) <==> -2_147_483_648 <= x <= 2_147_483_647
    ensures Int64(x) <==> -9_223_372_036_854_775_808 <= x <= 9_223_372_036_854_775_807
  {
  }

  lemma I32Adds(a: int, b: int)
    ensures I32(I32(a) + b) == I32(a + b)
  {
  }
}
