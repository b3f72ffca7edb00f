/**
 * Java's 32-bit int arithmetic where the searches and the genetic algorithm
 * rely on it: wrap-around of + and -, `1 << n` (whose distance is taken
 * modulo 32) and `/`, which truncates toward zero where Dafny's `/` floors.
 */
module JavaInt {
  import opened Bits
  import opened Decimal

  const TwoTo32: int := 0x1_0000_0000

  /** The int a Java expression yields for the mathematical value x. */
  function Wrap(x: int): (r: int)
    ensures IsInt32(r)
    ensures (x - r) % TwoTo32 == 0
    ensures IsInt32(x) ==> r == x
  {
    var r := (x - IntMin) % TwoTo32 + IntMin;
    assert x - r == TwoTo32 * ((x - IntMin) / TwoTo32);
    if IsInt32(x) then
      DivUnique(x - IntMin, TwoTo32, 0, x - IntMin);
      r
    else r
  }

  lemma {:induction false} Pow2Monotone(a: nat, b: nat)
    requires a <= b
    ensures Pow2(a) <= Pow2(b)
    decreases b
  {
    if a < b {
      Pow2Monotone(a, b - 1);
    }
  }

  lemma Pow2Bounds()
    ensures Pow2(30) == 0x4000_0000 && Pow2(31) == 0x8000_0000
  {
    Pow2Values();
    assert Pow2(31) == 2 * Pow2(30);
  }

  /** Java `1 << size` on an int. */
  function ShiftOne(size: int): (r: int)
    ensures IsInt32(r)
    ensures size % 32 < 31 ==> r == Pow2(size % 32) && r >= 1
    ensures size % 32 == 31 ==> r == IntMin
  {
    Pow2Bounds();
    if size % 32 < 31 then
      Pow2Monotone(size % 32, 30);
      Wrap(Pow2(size % 32))
    else
      Wrap(Pow2(31))
  }

  function Abs(x: int): nat {
    if x < 0 then -x else x
  }

  /** Java `a / b` on ints (the Integer.MIN_VALUE / -1 overflow is not needed here). */
  function Div(a: int, b: int): (q: int)
    requires b != 0
  {
    var q := Abs(a) / Abs(b);
    if (a < 0) == (b < 0) then q else -q
  }

  /**
   * Java's quotient truncates: the remainder a - q*b is smaller than b in
   * size and has the sign of a; for a non-negative a and a positive b it is
   * Dafny's quotient.
   */
  lemma DivTruncates(a: int, b: int)
    requires b != 0
    ensures var q := Div(a, b); var rem := a - q * b;
      Abs(rem) < Abs(b) && (rem == 0 || (rem < 0 <==> a < 0))
    ensures a >= 0 && b > 0 ==> Div(a, b) == a / b
  {
    var q0, r0 := Abs(a) / Abs(b), Abs(a) % Abs(b);
    assert Abs(a) == Abs(b) * q0 + r0;
    var q := Div(a, b);
    if a >= 0 && b > 0 {
      assert a - q * b == r0;
    } else if a >= 0 {
      assert q * b == q0 * Abs(b);
      assert a - q * b == r0;
    } else if b > 0 {
      assert q * b == -(q0 * Abs(b));
      assert a - q * b == -r0;
    } else {
      assert q * b == -(q0 * Abs(b));
      assert a - q * b == -r0;
    }
  }
}
